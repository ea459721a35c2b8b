/**
 * The part of Node's `fs` module the record uses, over a map from path to
 * file contents: `readFileSync`, `writeFileSync`, `unlinkSync` and
 * `copyFileSync`, each failing the way Node's does on a missing file.
 */
module Disk {
  import opened Wrappers

  class FileSystem {
    var files: map<string, seq<int>>

    constructor (initial: map<string, seq<int>>)
      ensures files == initial
    {
      files := initial;
    }

    /** `readFileSync`: fails (None) when the file does not exist. */
    method Read(p: string) returns (r: Option<seq<int>>)
      ensures r == if p in files then Some(files[p]) else None
    {
      r := if p in files then Some(files[p]) else None;
    }

    /** `writeFileSync`: creates or replaces the file. */
    method Write(p: string, data: seq<int>)
      modifies this
      ensures files == old(files)[p := data]
    {
      files := files[p := data];
    }

    /** `unlinkSync`: fails when the file does not exist. */
    method Unlink(p: string) returns (ok: bool)
      modifies this
      ensures ok == (p in old(files))
      ensures files == old(files) - {p}
    {
      ok := p in files;
      files := files - {p};
    }

    /** `copyFileSync`: fails when the source does not exist, overwrites the destination. */
    method Copy(src: string, dst: string) returns (ok: bool)
      modifies this
      ensures ok == (src in old(files))
      ensures files == if ok then old(files)[dst := old(files)[src]] else old(files)
    {
      ok := src in files;
      if ok {
        files := files[dst := files[src]];
      }
    }
  }
}
