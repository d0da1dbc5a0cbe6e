/** The two filesystem calls of the HTTP layer, over an abstract filesystem.

    A `FileSystem` maps each path at which a regular file exists to what reading
    it as text gives: `Some(text)` when the file reads as valid UTF-8, `None` when
    `read_to_string` on it fails.  A path that is not a key is not a regular file
    (it is missing, or a directory).  Operating-system path semantics (`.`, `..`,
    symbolic links, permissions) are not modelled: a path is just a string key. */
module Files {
  import opened Outcomes

  type FileSystem = map<string, Option<string>>

  /** `Path::new(path).is_file()` */
  predicate IsFile(fs: FileSystem, path: string)
  {
    path in fs
  }

  /** `fs::read_to_string(path).unwrap()`: the text of the file, or a panic. */
  function ReadToString(fs: FileSystem, path: string): (r: Result<string>)
    ensures r.Ok? <==> IsFile(fs, path) && fs[path].Some?
    ensures r.Ok? ==> r.value == fs[path].value
    ensures r.Err? ==> r.error == FileUnreadable(path)
  {
    if path in fs && fs[path].Some? then Ok(fs[path].value) else Err(FileUnreadable(path))
  }
}
