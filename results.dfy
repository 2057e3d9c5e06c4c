/** Errors the cache can raise, and the result type that carries them. */
module Results {

  /** The exceptions the cache lets escape: the ones it raises itself and the
      operating-system errors of the file operations it performs. */
  datatype Error =
    | InvalidKeyRequest       // ValueError of key_for_target: no sources and no extra fingerprint
    | MissingExpandFiles      // AttributeError: the target has no expand_files
    | TraversalViolation      // AssertionError: an artifact's relative path starts with ".."
    | NotFound(path: seq<string>)        // ENOENT
    | NotADirectory(path: seq<string>)   // ENOTDIR
    | IsADirectory(path: seq<string>)    // EISDIR
    | AlreadyExists(path: seq<string>)   // EEXIST
    | SameFile(path: seq<string>)        // shutil.Error: source and destination are the same file

  datatype Result<+T> = Ok(value: T) | Err(error: Error)

  datatype Option<+T> = None | Some(value: T)
}
