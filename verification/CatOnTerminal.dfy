/** The cat program all the way: from the blocks of a file to the cells of a screen. */
module CatOnTerminal {
  import opened Sequences
  import opened Bytes
  import opened FileSystem
  import opened TermScreen
  import opened Termios

  /** Writing a text in two parts is writing it at once. */
  lemma WriteInParts(a: seq<byte>, b: seq<byte>, s: Screen)
    requires HandleKeys(Blank(), Stream(a)) == Some(s) && OnScreen(s)
    ensures HandleKeys(s, Stream(b)) == HandleKeys(Blank(), Stream(a + b))
  {
    assert Stream(a + b) == Stream(a) + Stream(b);
    HandleKeysAppend(Blank(), Stream(a), Stream(b));
  }

  lemma PrefixWritten(a: seq<byte>, b: seq<byte>)
    requires HandleKeys(Blank(), Stream(a + b)).Some?
    ensures HandleKeys(Blank(), Stream(a)).Some?
  {
    assert Stream(a + b) == Stream(a) + Stream(b);
    HandleKeysAppend(Blank(), Stream(a), Stream(b));
  }

  /**
   * cat on a fresh terminal: whatever the file holds, whatever its length, its block map and the
   * places where the 1024-byte reads fall, the screen ends up showing the window on the tape of the
   * file, as long as that tape keeps the stores on the screen (`ok`). A file that only moves the
   * cursor forward always does, and its last 25 lines are what is shown.
   */
  method CatTo(f: OpenFile, d: Driver, td: TermData) returns (code: int, ok: bool)
    requires f.Valid() && f.inUse && f.position == 0
    requires d.Drawable(td) && d.ScreenOf(td) == Blank()
    modifies f`position, d.Buf(td), td`curX, td`curY, td`inIndex, td`inEnd, td`inRets, td.inBuf
    ensures td.Valid() && td.Pending() == old(td.Pending())
    ensures ok <==> TapeKeys(Tape([], 0), Stream(f.file)).Some?
    ensures ok ==> code == 0
    ensures ok ==> var t := TapeKeys(Tape([], 0), Stream(f.file)).value; Fits(t) && d.ScreenOf(td) == Show(t)
    ensures (forall i :: 0 <= i < |f.file| ==> Forward(f.file[i])) ==>
              ok && Fits(LastLines(Page(f.file))) && d.ScreenOf(td) == Show(LastLines(Page(f.file)))
  {
    FileTape(f.file);
    var buf := new byte[1024];
    assert Stream(f.file[..0]) == [];
    while true
      invariant f.Valid() && f.inUse && buf.Length == 1024 && fresh(buf)
      invariant d.Drawable(td) && td.Pending() == old(td.Pending())
      invariant Some(d.ScreenOf(td)) == HandleKeys(Blank(), Stream(f.file[..f.position]))
      decreases |f.file| - f.position
    {
      ghost var pos, s := f.position, d.ScreenOf(td);
      var cnt := f.Read(buf, 0, 1024);
      if cnt == 0 { break; }
      if cnt == -1 { return 3, true; }
      ghost var chunk := f.file[pos..f.position];
      assert f.file[..pos] + chunk == f.file[..f.position];
      WriteInParts(f.file[..pos], chunk, s);
      assert buf[..cnt] == chunk;
      var n;
      n, ok := d.Write(td, buf[..cnt]);
      if !ok {
        NotWritten(f.file, f.position);
        return -1, false;
      }
      assert Stream(chunk)[..n] == Stream(chunk);
    }
    assert f.file[..f.position] == f.file;
    return 0, true;
  }

  lemma NotWritten(file: seq<byte>, n: nat)
    requires n <= |file| && HandleKeys(Blank(), Stream(file[..n])) == None
    ensures HandleKeys(Blank(), Stream(file)) == None
  {
    assert file == file[..n] + file[n..];
    if HandleKeys(Blank(), Stream(file)).Some? { PrefixWritten(file[..n], file[n..]); }
  }

  /** What a written file comes to. */
  lemma FileTape(file: seq<byte>)
    ensures match TapeKeys(Tape([], 0), Stream(file))
            case None => HandleKeys(Blank(), Stream(file)) == None
            case Some(t) => Fits(t) && HandleKeys(Blank(), Stream(file)) == Some(Show(t))
    ensures (forall i :: 0 <= i < |file| ==> Forward(file[i])) ==>
              TapeKeys(Tape([], 0), Stream(file)) == Some(LastLines(Page(file)))
  {
    BlankShowsEmpty();
    StreamShowsTape(Tape([], 0), Stream(file));
    if forall i :: 0 <= i < |file| ==> Forward(file[i]) { TapeOfStream(file); }
  }
}
