/** SourceScope: how key_for_target picks the files to fingerprint from a target. */
module SourceScopes {
  import opened Paths
  import opened Results

  /** What target.expand_files(recursive, include_buildfile=False) returns:
      the target's own sources, or those of its whole dependency closure. */
  datatype Expansion = Expansion(direct: seq<Path>, transitive: seq<Path>)

  /** A target as the cache sees it: its id, and expand_files if it has one. */
  datatype Target = Target(id: string, expandFiles: Option<Expansion>)

  /** A scope is its select(); a selector may fail with the error it raises. */
  datatype SourceScope = SourceScope(selector: Target -> Result<seq<Path>>)

  /** SourceScope.for_selector: a scope whose select() is the selector. */
  function ForSelector(selector: Target -> Result<seq<Path>>): (r: SourceScope)
    ensures forall t :: Select(r, t) == selector(t)
  {
    SourceScope(selector)
  }

  function Select(scope: SourceScope, t: Target): Result<seq<Path>> {
    scope.selector(t)
  }

  /** SourceScope.valid: the target has expand_files. Every scope, NO_SOURCES
      included, asks this of the target and nothing else. */
  predicate IsValidFor(scope: SourceScope, t: Target) {
    t.expandFiles.Some?
  }

  /** Calling expand_files on a target that lacks it raises AttributeError. */
  function ExpandFiles(t: Target, recursive: bool): (r: Result<seq<Path>>)
    ensures r.Ok? <==> t.expandFiles.Some?
    ensures r.Err? ==> r.error == MissingExpandFiles
    ensures r.Ok? ==> r.value == if recursive then t.expandFiles.value.transitive else t.expandFiles.value.direct
  {
    match t.expandFiles
    case None => Err(MissingExpandFiles)
    case Some(x) => Ok(if recursive then x.transitive else x.direct)
  }

  /** NO_SOURCES selects the empty tuple. */
  const NoSources: SourceScope := ForSelector(_ => Ok([]))

  /** TARGET_SOURCES selects the target's own files. */
  const TargetSources: SourceScope := ForSelector(t => ExpandFiles(t, false))

  /** TRANSITIVE_SOURCES selects the files of the target and its dependencies. */
  const TransitiveSources: SourceScope := ForSelector(t => ExpandFiles(t, true))

  /** The selector never raises the ValueError key_for_target raises itself. */
  ghost predicate NeverRejects(scope: SourceScope) {
    forall t :: Select(scope, t) != Err(InvalidKeyRequest)
  }

  /** The predefined scopes: NO_SOURCES never fails; the other two fail
      exactly on targets their validity check rejects. */
  lemma PredefinedScopes(t: Target)
    ensures Select(NoSources, t) == Ok([])
    ensures Select(TargetSources, t).Err? <==> !IsValidFor(TargetSources, t)
    ensures Select(TransitiveSources, t).Err? <==> !IsValidFor(TransitiveSources, t)
    ensures Select(TargetSources, t).Err? ==> Select(TargetSources, t).error == MissingExpandFiles
    ensures Select(TransitiveSources, t).Err? ==> Select(TransitiveSources, t).error == MissingExpandFiles
    ensures NeverRejects(NoSources) && NeverRejects(TargetSources) && NeverRejects(TransitiveSources)
  {
  }
}
