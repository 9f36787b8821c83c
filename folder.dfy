/**
 * The flat download directory of app.py, as a map from file name to
 * contents, with the three file-system calls the service makes on it.
 */
module Folder {
  import opened Wrappers

  type Bytes = seq<bv8>

  class DownloadFolder {
    var files: map<string, Bytes>

    constructor (initial: map<string, Bytes>)
      ensures files == initial
    {
      files := initial;
    }

    /** os.path.exists */
    predicate Exists(name: string)
      reads this
    {
      name in files
    }

    /** A writer (the downloader or the encoder) creating or overwriting a file. */
    method Write(name: string, data: Bytes)
      modifies this
      ensures files == old(files)[name := data]
    {
      files := files[name := data];
    }

    /** os.remove: fails, changing nothing, when the file is missing. */
    method Remove(name: string) returns (ok: bool)
      modifies this
      ensures ok == (name in old(files))
      ensures files == old(files) - {name}
    {
      ok := name in files;
      files := files - {name};
    }

    /**
     * os.rename with POSIX semantics: the target is replaced; fails,
     * changing nothing, when the source is missing.
     */
    method Rename(src: string, dst: string) returns (ok: bool)
      modifies this
      ensures ok == (src in old(files))
      ensures ok ==> files == (old(files) - {src})[dst := old(files)[src]]
      ensures !ok ==> files == old(files)
    {
      ok := src in files;
      if ok {
        var data := files[src];
        files := (files - {src})[dst := data];
      }
    }

    /**
     * The pass-through publication: delete any file already at the final
     * name, then rename the temporary file to it. It fails when the
     * temporary file is missing or has the final name itself, and then the
     * final name has been deleted.
     */
    method MoveIntoPlace(temp: string, final: string) returns (ok: bool)
      modifies this
      ensures ok == (temp in old(files) && temp != final)
      ensures ok ==> files == (old(files) - {temp})[final := old(files)[temp]]
      ensures !ok ==> files == old(files) - {final}
    {
      if Exists(final) {
        var _ := Remove(final);
      }
      ok := Rename(temp, final);
    }

    /**
     * The transcode publication once the encoder has run: it wrote the
     * final name or nothing, and the temporary file is removed either way.
     * Nothing is deleted at the final name beforehand.
     */
    method EncodeInto(temp: string, final: string, encoded: Option<Bytes>) returns (ok: bool)
      modifies this
      ensures var written := if encoded.Some? then old(files)[final := encoded.value] else old(files);
        && ok == (temp in written)
        && files == written - {temp}
    {
      if encoded.Some? {
        Write(final, encoded.value);
      }
      ok := Remove(temp);
    }
  }
}
