/** The scan context: the text collected by the scanner, the stack of suspended files, and the
    list of distinct file names. */
module ScanContext {
  import opened ConfigScanner
  import opened Options
  import opened StringBuffer

  predicate Distinct(names: seq<string>)
  {
    forall i, j | 0 <= i < j < |names| :: names[i] != names[j]
  }

  datatype IncludeError = TooDeep | CannotOpen

  class Context {
    const collected: StrBuf
    var filenames: seq<string>
    var files: seq<nat>  // the open files, innermost last, as positions in `filenames`
    var buffers: seq<Suspended>  // for each open file, the rest of the one that includes it
    var top: Option<nat>

    /** No name is stored twice, and every open file has its name in the list. */
    predicate Valid()
      reads this, collected, collected.text
    {
      && collected.Valid()
      && Distinct(filenames) && |files| == |buffers| <= MAX_INCLUDE_DEPTH
      && (forall i | 0 <= i < |files| :: files[i] < |filenames|)
      && (top.Some? ==> top.value < |filenames|)
    }

    /** `scanctx_init` */
    constructor (topFilename: Option<string>)
      ensures Valid() && fresh(collected) && fresh(collected.text) && collected.Contents() == ""
      ensures files == [] && buffers == []
      ensures filenames == if topFilename.Some? then [topFilename.value] else []
      ensures top == if topFilename.Some? then Some(0) else None
    {
      collected := new StrBuf();
      files, buffers := [], [];
      filenames := if topFilename.Some? then [topFilename.value] else [];
      top := if topFilename.Some? then Some(0) else None;
    }

    /** `__scanctx_add_filename` */
    method AddFilename(name: string) returns (f: nat)
      requires Valid()
      modifies this`filenames
      ensures Valid() && f < |filenames| && filenames[f] == name
      ensures filenames == if name in old(filenames) then old(filenames) else old(filenames) + [name]
    {
      f := 0;
      while f < |filenames|
        invariant 0 <= f <= |filenames| && name !in filenames[..f]
      {
        if filenames[f] == name {
          return;
        }
        f := f + 1;
      }
      assert filenames[..f] == filenames;
      filenames := filenames + [name];
    }

    /** `scanctx_take_string` */
    method TakeString() returns (s: string)
      requires Valid()
      modifies collected
      ensures Valid() && fresh(collected.text) && collected.Contents() == ""
      ensures s == old(collected.Contents())
    {
      var released, n := collected.Release();
      s := released[..n];
    }

    /** `scanctx_push_include`: the file to open is named by the collected text. */
    method PushInclude(fs: Files, buffer: Suspended) returns (content: Option<string>, error: Option<IncludeError>)
      requires Valid()
      modifies this, collected
      ensures Valid() && top == old(top) && (collected.text == old(collected.text) || fresh(collected.text))
      ensures
        var name := old(collected.Contents());
        && (error == if |old(files)| == MAX_INCLUDE_DEPTH then Some(TooDeep)
                     else if name !in fs then Some(CannotOpen)
                     else None)
        && (error.Some? ==> content == None && files == old(files) && buffers == old(buffers))
        && (error.Some? ==> filenames == old(filenames))
        && (error.None? ==>
              && name in fs && content == Some(fs[name]) && collected.Contents() == ""
              && buffers == old(buffers) + [buffer]
              && |files| == |old(files)| + 1 && files[..|old(files)|] == old(files)
              && filenames[files[|old(files)|]] == name)
    {
      if |files| == MAX_INCLUDE_DEPTH {
        return None, Some(TooDeep);
      }
      var name := TakeString();
      if name !in fs {
        return None, Some(CannotOpen);
      }
      var f := AddFilename(name);
      files, buffers := files + [f], buffers + [buffer];
      return Some(fs[name]), None;
    }

    /** `scanctx_pop_include` */
    method PopInclude() returns (buffer: Option<Suspended>)
      requires Valid()
      modifies this`files, this`buffers
      ensures Valid()
      ensures
        var last := |old(buffers)| - 1;
        if last < 0 then buffer == None && files == old(files) && buffers == old(buffers)
        else buffer == Some(old(buffers)[last]) && files == old(files)[..last] && buffers == old(buffers)[..last]
    {
      if files == [] {
        return None;
      }
      var last := |files| - 1;
      buffer := Some(buffers[last]);
      files, buffers := files[..last], buffers[..last];
    }
  }
}
