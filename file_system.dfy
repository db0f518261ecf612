/** An in-memory stand-in for the files the program reads and writes. Which reads and
    writes fail is given up front, as two sets of paths. */
module FileSystem {
  import opened Wrappers

  type Path = string

  /** The paths whose whole-text read, or whose whole-text write, throws. */
  datatype Faults = Faults(unreadable: set<Path>, unwritable: set<Path>)

  class Disk {
    var files: map<Path, string>
    const faults: Faults

    constructor (files: map<Path, string>, faults: Faults)
      ensures this.files == files && this.faults == faults
    {
      this.files := files;
      this.faults := faults;
    }

    /** `File.ReadAllText`: `None` when the file is missing or the read throws. */
    method ReadAllText(path: Path) returns (text: Option<string>)
      ensures text == if path in files && path !in faults.unreadable then Some(files[path]) else None
    {
      if path in files && path !in faults.unreadable {
        text := Some(files[path]);
      } else {
        text := None;
      }
    }

    /** `File.WriteAllText`: replaces the whole content, or throws and leaves it as it was. */
    method WriteAllText(path: Path, text: string) returns (ok: bool)
      modifies this
      ensures ok == (path !in faults.unwritable)
      ensures files == if ok then old(files)[path := text] else old(files)
    {
      ok := path !in faults.unwritable;
      if ok {
        files := files[path := text];
      }
    }
  }
}
