/**
  The part of the operating system the cache talks to: a file system of paths
  mapped to contents, plus directories, and the binary input stream
  (`std::ifstream`) through which cache files are read.
*/
module FileSystems {
  import opened Wrappers
  import opened Framing

  /** A file or a directory exists at `p`. */
  predicate PathPresent(files: map<string, Bytes>, dirs: set<string>, p: string) {
    p in files || p in dirs
  }

  /** The contents of the regular file at `p`, if there is one. */
  function FileAt(files: map<string, Bytes>, p: string): (r: Option<Bytes>)
    ensures r.Some? <==> p in files
    ensures r.Some? ==> r.value == files[p]
  {
    if p in files then Some(files[p]) else None
  }

  class FileSystem {
    var files: map<string, Bytes>
    var dirs: set<string>

    constructor (files: map<string, Bytes>, dirs: set<string>)
      ensures this.files == files && this.dirs == dirs
    {
      this.files := files;
      this.dirs := dirs;
    }

    /** OSUtil::isPathPresent */
    predicate IsPathPresent(p: string)
      reads this
    {
      PathPresent(files, dirs, p)
    }

    function Contents(p: string): Option<Bytes>
      reads this
    {
      FileAt(files, p)
    }

    /** open(p, O_CREAT | O_EXCL): atomically creates an empty file, failing if `p` exists. */
    method CreateExclusive(p: string) returns (created: bool)
      modifies this
      ensures created == !old(IsPathPresent(p))
      ensures files == if created then old(files)[p := []] else old(files)
      ensures dirs == old(dirs)
    {
      created := !IsPathPresent(p);
      if created {
        files := files[p := []];
      }
    }

    /** std::remove(p); the result is true when the removal failed. */
    method Remove(p: string) returns (failed: bool)
      modifies this
      ensures failed == (p !in old(files))
      ensures files == old(files) - {p} && dirs == old(dirs)
    {
      failed := p !in files;
      files := files - {p};
    }

    /** A std::ofstream in binary mode that writes `data` and is closed. */
    method WriteFile(p: string, data: Bytes)
      modifies this
      ensures files == old(files)[p := data] && dirs == old(dirs)
    {
      files := files[p := data];
    }

    /** OSUtil::makeDir: the directory `p` exists afterwards. */
    method MakeDir(p: string)
      modifies this
      ensures dirs == old(dirs) + {p} && files == old(files)
    {
      dirs := dirs + {p};
    }
  }

  /**
    A binary input file stream (`std::ifstream`) as the bytes it has not
    extracted yet and its fail bit.
  */
  datatype Cursor = Cursor(rest: Bytes, failed: bool)

  /** A stream opened on a missing file starts failed and has nothing to read. */
  function OpenRead(file: Option<Bytes>): (c: Cursor)
    ensures c.failed <==> file.None?
    ensures c.rest == if file.Some? then file.value else []
  {
    if file.Some? then Cursor(file.value, false) else Cursor([], true)
  }

  /**
    `stream.read(buf, |buf|)`: on a failed stream nothing is extracted and
    `buf` is left alone; otherwise up to `|buf|` bytes are extracted into the
    front of `buf`, and running out of input first sets the fail bit.
  */
  function ReadInto(c: Cursor, buf: Bytes): (r: (Cursor, Bytes))
    ensures |r.1| == |buf|
    ensures c.failed ==> r == (c, buf)
    ensures !r.0.failed <==> !c.failed && |buf| <= |c.rest|
    ensures !r.0.failed ==> c.rest == r.1 + r.0.rest
  {
    if c.failed then (c, buf)
    else if |buf| <= |c.rest| then (Cursor(c.rest[|buf|..], false), c.rest[..|buf|])
    else (Cursor([], true), c.rest + buf[|c.rest|..])
  }

  /** Reading from a good stream whose input starts with `f` extracts exactly `f`. */
  lemma ReadIntoAt(c: Cursor, buf: Bytes, f: Bytes, r: Bytes)
    requires !c.failed && c.rest == f + r && |buf| == |f|
    ensures ReadInto(c, buf) == (Cursor(r, false), f)
  {
    assert c.rest[..|f|] == f && c.rest[|f|..] == r;
  }

  /**
    Reading a `size_t` and then that many bytes from a good stream at a
    well-formed field yields the field's bytes and leaves the stream good,
    right after the field, whatever the buffers held before.
  */
  lemma ReadFieldAt(c: Cursor, sizeBuf: Bytes, buf: Bytes, b: Bytes, r: Bytes)
    requires !c.failed && |sizeBuf| == SIZE_T_BYTES && Framable(b) && |buf| == |b|
    requires c.rest == Field(b) + r
    ensures var t1 := ReadInto(c, sizeBuf);
      && t1 == (Cursor(b + r, false), SizeT(|b|)) && ValueOf(t1.1) == |b|
      && ReadInto(t1.0, buf) == (Cursor(r, false), b)
  {
    ReadIntoAt(c, sizeBuf, SizeT(|b|), b + r);
    ReadIntoAt(Cursor(b + r, false), buf, b, r);
    SizeTRoundTrip(|b|);
  }

  /**
    Reading a `size_t` and then that many bytes, when it leaves the stream
    good, consumed exactly one well-formed field.
  */
  lemma ReadFieldSound(c: Cursor, sizeBuf: Bytes, buf: Bytes)
    requires |sizeBuf| == SIZE_T_BYTES && |buf| == ValueOf(ReadInto(c, sizeBuf).1)
    ensures var t1 := ReadInto(c, sizeBuf);
      var t2 := ReadInto(t1.0, buf);
      !t2.0.failed ==> !c.failed && Framable(t2.1) && c.rest == Field(t2.1) + t2.0.rest
  {
    var t1 := ReadInto(c, sizeBuf);
    var t2 := ReadInto(t1.0, buf);
    if !t2.0.failed {
      SizeTOfValueOf(t1.1);
      assert c.rest == t1.1 + (t2.1 + t2.0.rest);
    }
  }
}
