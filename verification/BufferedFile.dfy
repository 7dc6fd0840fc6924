/** Reading a file through a ring buffer, with a limit and some room to go back. */
module BufferedFile {
  import opened Collections
  import opened Bits
  import opened Bytes
  import opened Words

  /** How a read can fail; a stuck one goes round its loop for ever. */
  datatype Failure = PastLimit | LargerThanBuffer | EndOfFile | Stuck

  datatype Filling = More | Threw | NoRoom

  /** How a search ends: on the byte, by stopping the program, on a stale byte of the ring that is not
      of the file, or never. */
  datatype Search = Found | Stopped | Astray | Endless

  // ---- Positioning ----

  /** Where a request to go to `pos` ends up, in 64-bit arithmetic, and whether it got there. */
  function Position(srcPos: Uint64, rewind: Uint64, pos: Uint64): (Uint64, bool) {
    if (pos + rewind) % TWO_64 < srcPos then ((srcPos - rewind) % TWO_64, false)
    else if pos > srcPos then (srcPos, false)
    else (pos, true)
  }

  /** Requests so large that adding the rewind distance wraps to below what has been read, while less
      than the rewind distance has been read. */
  predicate Corrupts(srcPos: Uint64, rewind: Uint64, pos: Uint64) {
    pos + rewind >= TWO_64 && pos + rewind - TWO_64 < srcPos < rewind
  }

  /** The position stays within what has been read, and no further back than allowed, except for
      exactly those requests. */
  lemma PositionInside(srcPos: Uint64, rewind: Uint64, pos: Uint64)
    ensures !Corrupts(srcPos, rewind, pos) <==>
      Position(srcPos, rewind, pos).0 <= srcPos && srcPos - Position(srcPos, rewind, pos).0 <= rewind
  {
  }

  /** The request is met exactly for positions read and at most the rewind distance behind; short of
      wrapping, any other ends at the nearer end of that range. */
  lemma PositionMet(srcPos: Uint64, rewind: Uint64, pos: Uint64)
    requires srcPos + rewind < TWO_64
    ensures Position(srcPos, rewind, pos).1 <==> srcPos - rewind <= pos <= srcPos
    ensures Position(srcPos, rewind, pos).1 ==> Position(srcPos, rewind, pos).0 == pos
    ensures !Position(srcPos, rewind, pos).1 && pos + rewind < TWO_64 ==>
      Position(srcPos, rewind, pos).0 == if pos > srcPos then srcPos else srcPos - rewind
  {
    if pos + rewind >= TWO_64 { assert (pos + rewind) % TWO_64 == pos + rewind - TWO_64; }
  }

  /** Five bytes read and ten to go back: a request near the top of the range leaves the position far
      past the end of what was read. */
  lemma PositionCorrupted()
    ensures Position(5, 10, TWO_64 - 8) == (TWO_64 - 5, false)
  {
  }

  /** With the source ninety bytes ahead and ten to go back, asking for the current position moves. */
  lemma PositionMoves()
    ensures Position(90, 10, 20) == (80, false)
  {
  }

  // ---- The buffered file ----

  class BufferedFile {
    const file: seq<Byte>
    const nRewind: Uint64
    var nSrcPos: Uint64
    var nReadPos: Uint64
    var nReadLimit: Uint64
    const vchBuf: array<Byte>
    var failed: bool

    /** The last bytes read from the source are where their positions say. */
    ghost predicate Valid()
      reads this, vchBuf
    {
      && 0 < vchBuf.Length < TWO_32 && |file| < TWO_64 / 2
      && nReadPos <= nSrcPos <= |file|
      && nSrcPos - nReadPos <= vchBuf.Length
      && Holds(vchBuf[..], nSrcPos)
    }

    /** The room for new bytes when all that was read has been handed out, in 64 bits cut to 32. */
    function Avail(): nat { (vchBuf.Length - nRewind) % TWO_64 % TWO_32 }

    /** There is room under every rewind distance short of the size of the buffer. */
    lemma RoomBehind()
      requires nRewind < vchBuf.Length < TWO_32
      ensures Avail() == vchBuf.Length - nRewind > 0
    {
    }

    ghost predicate Holds(buf: seq<Byte>, srcPos: nat)
      requires 0 < |buf|
    {
      srcPos <= |file| && forall p :: 0 <= p < srcPos && srcPos - |buf| <= p ==> buf[p % |buf|] == file[p]
    }

    constructor (file: seq<Byte>, nBufSize: nat, nRewind: Uint64)
      requires 0 < nBufSize < TWO_32 && |file| < TWO_64 / 2
      ensures Valid() && this.file == file && this.nRewind == nRewind && vchBuf.Length == nBufSize && fresh(vchBuf)
      ensures nSrcPos == nReadPos == 0 && nReadLimit == TWO_64 - 1 && !failed
    {
      this.file, this.nRewind := file, nRewind;
      nSrcPos, nReadPos, nReadLimit, failed := 0, 0, TWO_64 - 1, false;
      vchBuf := new Byte[nBufSize](i => 0);
    }

    /** How much to read: to the end of the ring, or as much as there is room for. */
    method ReadNow(pos: nat) returns (readNow: nat)
      requires 0 < vchBuf.Length && nReadPos == nSrcPos && pos < vchBuf.Length
      ensures readNow == if Avail() < vchBuf.Length - pos then Avail() else vchBuf.Length - pos
    {
      var size := vchBuf.Length;
      readNow := size - pos;
      var nAvail := (size - (nSrcPos - nReadPos) - nRewind) % TWO_64 % TWO_32;
      if nAvail < readNow { readNow := nAvail; }
    }

    /** Reads on from the source, as much of what there is room for as the system delivers. */
    method Fill() returns (filling: Filling)
      requires Valid() && nReadPos == nSrcPos
      modifies this`nSrcPos, this`failed, vchBuf
      ensures Valid()
      ensures filling.NoRoom? <==> Avail() == 0
      ensures filling.More? ==> old(nSrcPos) < nSrcPos <= old(nSrcPos) + Avail() && failed == old(failed)
      ensures filling.Threw? ==> nSrcPos == old(nSrcPos) && failed
      ensures filling.NoRoom? ==> nSrcPos == old(nSrcPos) && failed == old(failed)
      ensures !filling.More? ==> vchBuf[..] == old(vchBuf[..])
    {
      hide Holds, Avail;
      var pos := nSrcPos % vchBuf.Length;
      var readNow := ReadNow(pos);
      if readNow == 0 { return NoRoom; }
      var left := |file| - nSrcPos;
      var read :| 0 <= read <= readNow && read <= left;
      if read == 0 {
        failed := true;
        return Threw;
      }
      PutBytes(pos, read);
      nSrcPos := nSrcPos + read;
      filling := More;
    }

    /** The next bytes of the source, put into the ring. */
    method PutBytes(pos: nat, read: nat)
      requires 0 < vchBuf.Length && Holds(vchBuf[..], nSrcPos) && nSrcPos + read <= |file|
      requires pos == nSrcPos % vchBuf.Length && read <= vchBuf.Length - pos
      modifies vchBuf
      ensures Holds(vchBuf[..], nSrcPos + read)
    {
      hide Holds;
      ghost var before := vchBuf[..];
      forall i | pos <= i < pos + read { vchBuf[i] := file[nSrcPos + i - pos]; }
      Slides(before, vchBuf[..], nSrcPos, read);
    }

    /** Overwriting the oldest bytes with the next ones moves the window on. */
    lemma Slides(before: seq<Byte>, after: seq<Byte>, srcPos: nat, read: nat)
      requires 0 < |before| == |after| && Holds(before, srcPos) && srcPos + read <= |file|
      requires read <= |before| - srcPos % |before|
      requires forall i :: 0 <= i < |after| ==>
        after[i] == if srcPos % |before| <= i < srcPos % |before| + read
                    then file[srcPos + i - srcPos % |before|] else before[i]
      ensures Holds(after, srcPos + read)
    {
      var n := |before|;
      forall p | 0 <= p < srcPos + read && srcPos + read - n <= p ensures after[p % n] == file[p] {
        if p < srcPos { Apart(p, srcPos, read, n); } else { Ahead(p - srcPos, srcPos, n); }
      }
    }

    /** Copies a stretch that does not go round the end of the ring. */
    method CopyOut(pch: array<Byte>, done: nat, nSize: nat) returns (nNow: nat)
      requires Valid() && pch != vchBuf && nReadPos < nSrcPos && 0 < nSize && done + nSize <= pch.Length
      modifies this`nReadPos, pch
      ensures Valid() && 0 < nNow <= nSize && nReadPos == old(nReadPos) + nNow
      ensures pch[..done + nNow] == old(pch[..done]) + file[old(nReadPos)..nReadPos]
    {
      hide Holds;
      ghost var head, taken := pch[..done], vchBuf[..];
      var pos := nReadPos % vchBuf.Length;
      nNow := nSize;
      if nNow + pos > vchBuf.Length { nNow := vchBuf.Length - pos; }
      if nNow + nReadPos > nSrcPos { nNow := nSrcPos - nReadPos; }
      InWindow(taken, pos, nNow);
      forall i | done <= i < done + nNow { pch[i] := vchBuf[pos + i - done]; }
      assert vchBuf[..] == taken;
      assert pch[..done] == head && pch[done..done + nNow] == taken[pos..pos + nNow];
      assert pch[..done + nNow] == pch[..done] + pch[done..done + nNow];
      nReadPos := nReadPos + nNow;
    }

    /** The loop of `Read`. */
    method CopyAll(pch: array<Byte>) returns (failure: Option<Failure>)
      requires Valid() && pch != vchBuf && nReadPos + pch.Length < TWO_64
      modifies this`nSrcPos, this`nReadPos, this`failed, vchBuf, pch
      ensures Valid() && nSrcPos >= old(nSrcPos)
      ensures failure == Some(Stuck) <==> Avail() == 0 && pch.Length > old(nSrcPos) - old(nReadPos)
      ensures failure.None? || failure == Some(Stuck) || failure == Some(EndOfFile)
      ensures failure == Some(EndOfFile) ==> failed && nReadPos == nSrcPos
      ensures failure.None? ==> nReadPos == old(nReadPos) + pch.Length
      ensures !failure.None? ==> old(nReadPos) <= nReadPos < old(nReadPos) + pch.Length
      ensures pch[..nReadPos - old(nReadPos)] == file[old(nReadPos)..nReadPos]
    {
      hide Holds;
      var nSize, done := pch.Length, 0;
      ghost var start := nReadPos;
      while nSize > 0
        invariant 0 <= nSize && 0 <= done && done + nSize == pch.Length
        invariant Valid() && nReadPos == start + done
        invariant nSrcPos >= old(nSrcPos) && (Avail() == 0 ==> nSrcPos == old(nSrcPos))
        invariant pch[..done] == file[start..nReadPos]
        decreases nSize
      {
        if nReadPos == nSrcPos {
          var filling := Fill();
          if filling.Threw? { return Some(EndOfFile); }
          if filling.NoRoom? { return Some(Stuck); }
        }
        var nNow := CopyOut(pch, done, nSize);
        assert file[start..nReadPos - nNow] + file[nReadPos - nNow..nReadPos] == file[start..nReadPos];
        done := done + nNow;
        nSize := nSize - nNow;
      }
      failure := None;
    }

    /** Copies the next bytes out, filling the buffer whenever it runs dry. It is stuck exactly when it
        has to fill a buffer without room, which its own test does not exclude when the sum wraps. */
    method Read(pch: array<Byte>) returns (failure: Option<Failure>)
      requires Valid() && pch != vchBuf && pch.Length < TWO_64 / 2
      modifies this`nSrcPos, this`nReadPos, this`failed, vchBuf, pch
      ensures Valid() && nSrcPos >= old(nSrcPos)
      ensures failure == Some(PastLimit) <==> old(nReadPos) + pch.Length > nReadLimit
      ensures failure == Some(LargerThanBuffer) <==>
        old(nReadPos) + pch.Length <= nReadLimit && (pch.Length + nRewind) % TWO_64 > vchBuf.Length
      ensures failure == Some(Stuck) <==>
        && old(nReadPos) + pch.Length <= nReadLimit && (pch.Length + nRewind) % TWO_64 <= vchBuf.Length
        && Avail() == 0 && pch.Length > old(nSrcPos) - old(nReadPos)
      ensures failure == Some(PastLimit) || failure == Some(LargerThanBuffer) ==>
        nReadPos == old(nReadPos) && nSrcPos == old(nSrcPos) && pch[..] == old(pch[..])
      ensures failure == Some(EndOfFile) ==>
        && failed && old(nReadPos) <= nReadPos == nSrcPos < old(nReadPos) + pch.Length <= nReadLimit
        && pch[..nReadPos - old(nReadPos)] == file[old(nReadPos)..nReadPos]
      ensures failure.None? ==>
        && nReadPos == old(nReadPos) + pch.Length && nReadPos <= nReadLimit
        && pch[..] == file[old(nReadPos)..nReadPos]
    {
      assert (pch.Length + nReadPos) % TWO_64 == pch.Length + nReadPos;
      if (pch.Length + nReadPos) % TWO_64 > nReadLimit { return Some(PastLimit); }
      if (pch.Length + nRewind) % TWO_64 > vchBuf.Length { return Some(LargerThanBuffer); }
      failure := CopyAll(pch);
    }

    /** What lies in the buffer from the reading position on is the file from there on. */
    lemma InWindow(buf: seq<Byte>, pos: nat, n: nat)
      requires 0 < |buf| && Holds(buf, nSrcPos) && nReadPos <= nSrcPos && nSrcPos - nReadPos <= |buf|
      requires pos == nReadPos % |buf| && pos + n <= |buf| && nReadPos + n <= nSrcPos
      ensures buf[pos..pos + n] == file[nReadPos..nReadPos + n]
    {
      var a, b := buf[pos..pos + n], file[nReadPos..nReadPos + n];
      forall i | 0 <= i < n ensures a[i] == b[i] { WindowByte(buf, pos, i); }
    }

    lemma WindowByte(buf: seq<Byte>, pos: nat, i: nat)
      requires 0 < |buf| && Holds(buf, nSrcPos) && nReadPos + i < nSrcPos && nSrcPos - nReadPos <= |buf|
      requires pos == nReadPos % |buf| && pos + i < |buf|
      ensures buf[pos + i] == file[nReadPos + i]
    {
      Ahead(i, nReadPos, |buf|);
      assert buf[(nReadPos + i) % |buf|] == file[nReadPos + i];
    }

    method SetPos(nPos: Uint64) returns (ok: bool)
      requires Valid()
      modifies this`nReadPos
      ensures (nReadPos, ok) == Position(nSrcPos, nRewind, nPos)
      ensures Valid() <==> !Corrupts(nSrcPos, nRewind, nPos) && nSrcPos - nReadPos <= vchBuf.Length
      ensures nRewind <= vchBuf.Length ==> (Valid() <==> !Corrupts(nSrcPos, nRewind, nPos))
      ensures nPos == old(nReadPos) && nPos + nRewind < TWO_64 ==> (ok <==> nSrcPos - nPos <= nRewind)
    {
      PositionInside(nSrcPos, nRewind, nPos);
      nReadPos := nPos;
      ok := true;
      if (nReadPos + nRewind) % TWO_64 < nSrcPos {
        nReadPos := (nSrcPos - nRewind) % TWO_64;
        ok := false;
      } else if nReadPos > nSrcPos {
        nReadPos := nSrcPos;
        ok := false;
      }
    }

    method SetLimit(nPos: Uint64) returns (ok: bool)
      requires Valid()
      modifies this`nReadLimit
      ensures Valid() && ok == (nPos >= nReadPos)
      ensures nReadLimit == if ok then nPos else old(nReadLimit)
    {
      if nPos < nReadPos { return false; }
      nReadLimit := nPos;
      ok := true;
    }

    /** Fills the buffer when all of it was searched; that may stop the program. */
    method FillWhenDry(ghost from: nat, ghost ch: Byte) returns (threw: bool)
      requires Bounded() && Searched(vchBuf[..], from, nSrcPos, nReadPos, ch)
      requires nReadPos <= nSrcPos ==> Valid()
      modifies this`nSrcPos, this`failed, vchBuf
      ensures Bounded() && Searched(vchBuf[..], from, nSrcPos, nReadPos, ch)
      ensures nReadPos <= nSrcPos ==> Valid()
      ensures nSrcPos >= old(nSrcPos) && (old(nSrcPos) < nSrcPos ==> nReadPos < nSrcPos)
      ensures Avail() == 0 ==> nSrcPos == old(nSrcPos) && vchBuf[..] == old(vchBuf[..])
      ensures !threw && Avail() != 0 ==> nReadPos != nSrcPos
      ensures threw ==> Avail() != 0 && nReadPos == nSrcPos && failed
    {
      hide Searched, Holds, Avail;
      if nReadPos != nSrcPos { return false; }
      ghost var buf := vchBuf[..];
      var filling := Fill();
      SearchGoesOn(buf, vchBuf[..], from, nSrcPos, nReadPos, ch);
      threw := filling.Threw?;
    }

    /** Moves on to the next occurrence of a byte; at the end of the file the program stops. Without
        room to fill the buffer, it goes on over stale bytes. */
    method FindByte(ch: Byte) returns (search: Search)
      requires Valid()
      modifies this`nSrcPos, this`nReadPos, this`failed, vchBuf
      ensures Bounded() && nReadPos >= old(nReadPos) && nSrcPos >= old(nSrcPos)
      ensures forall p :: old(nReadPos) <= p < nReadPos && p < nSrcPos ==> file[p] != ch
      ensures search.Found? ==> Valid() && nReadPos < nSrcPos && file[nReadPos] == ch
      ensures search.Stopped? ==> Valid() && nReadPos == nSrcPos && failed
      ensures search.Astray? || search.Endless? <==>
        Avail() == 0 && forall p :: old(nReadPos) <= p < old(nSrcPos) ==> file[p] != ch
      ensures search.Astray? || search.Endless? ==>
        nReadPos >= nSrcPos == old(nSrcPos) && vchBuf[..] == old(vchBuf[..])
      ensures search.Astray? ==>
        && nReadPos < nSrcPos + vchBuf.Length && vchBuf[nReadPos % vchBuf.Length] == ch
        && forall p :: nSrcPos <= p < nReadPos ==> vchBuf[p % vchBuf.Length] != ch
      ensures search.Endless? ==> ch !in vchBuf[..]
    {
      hide Searched, Holds, Avail;
      ghost var from := nReadPos;
      NothingSearched(vchBuf[..], from, ch);
      while true
        invariant Bounded() && from <= nReadPos < nSrcPos + vchBuf.Length
        invariant nReadPos <= nSrcPos ==> Valid()
        invariant nSrcPos >= old(nSrcPos)
        invariant Avail() == 0 ==> nSrcPos == old(nSrcPos) && vchBuf[..] == old(vchBuf[..])
        invariant nReadPos > nSrcPos ==> Avail() == 0
        invariant Searched(vchBuf[..], from, nSrcPos, nReadPos, ch)
        decreases |file| + vchBuf.Length - nReadPos
      {
        var threw := FillWhenDry(from, ch);
        ghost var buf := vchBuf[..];
        if threw {
          SearchedSo(buf, from, nSrcPos, nReadPos, ch);
          return Stopped;
        }
        if vchBuf[nReadPos % vchBuf.Length] == ch {
          SearchedSo(buf, from, nSrcPos, nReadPos, ch);
          if nReadPos < nSrcPos { ByteThere(buf, nSrcPos, nReadPos); }
          search := if nReadPos < nSrcPos then Found else Astray;
          return;
        }
        SearchedNext(buf, from, nSrcPos, nReadPos, ch);
        nReadPos := nReadPos + 1;
        // Once round the ring: nothing changes any more, and the loop never ends.
        if nReadPos == nSrcPos + vchBuf.Length {
          SearchedSo(buf, from, nSrcPos, nReadPos, ch);
          RoundTheRing(buf, nSrcPos, ch);
          return Endless;
        }
      }
    }

    /** Between `from` and the reading position there is no `ch`, neither in the file nor, past what was
        read from it, among the stale bytes. */
    ghost predicate Searched(buf: seq<Byte>, from: nat, srcPos: nat, readPos: nat, ch: Byte) {
      && 0 < |buf| && srcPos <= |file|
      && (forall p :: from <= p < readPos && p < srcPos ==> file[p] != ch)
      && forall p :: srcPos <= p < readPos ==> buf[p % |buf|] != ch
    }

    lemma NothingSearched(buf: seq<Byte>, from: nat, ch: Byte)
      requires 0 < |buf| && from <= nSrcPos <= |file|
      ensures Searched(buf, from, nSrcPos, from, ch)
    {
    }

    lemma SearchedSo(buf: seq<Byte>, from: nat, srcPos: nat, readPos: nat, ch: Byte)
      requires Searched(buf, from, srcPos, readPos, ch)
      ensures 0 < |buf| && srcPos <= |file|
      ensures forall p :: from <= p < readPos && p < srcPos ==> file[p] != ch
      ensures forall p :: srcPos <= p < readPos ==> buf[p % |buf|] != ch
    {
    }

    /** A search that has come to the end of what was read goes on after more is. */
    lemma SearchGoesOn(buf: seq<Byte>, buf': seq<Byte>, from: nat, srcPos: nat, readPos: nat, ch: Byte)
      requires Searched(buf, from, readPos, readPos, ch) && |buf'| == |buf| && readPos <= srcPos <= |file|
      ensures Searched(buf', from, srcPos, readPos, ch)
    {
    }

    lemma ByteThere(buf: seq<Byte>, srcPos: nat, readPos: nat)
      requires 0 < |buf| && Holds(buf, srcPos) && readPos < srcPos && srcPos - readPos <= |buf|
      ensures readPos < |file| && buf[readPos % |buf|] == file[readPos]
    {
    }

    lemma SearchedNext(buf: seq<Byte>, from: nat, srcPos: nat, readPos: nat, ch: Byte)
      requires Searched(buf, from, srcPos, readPos, ch) && buf[readPos % |buf|] != ch
      requires readPos < srcPos ==> Holds(buf, srcPos) && srcPos - readPos <= |buf|
      ensures Searched(buf, from, srcPos, readPos + 1, ch)
    {
    }

    ghost predicate Bounded()
      reads this
    {
      0 < vchBuf.Length < TWO_32 && nSrcPos <= |file| < TWO_64 / 2
    }

    /** An operation that ended the use of the file: a read or a search without room in the buffer, a
        search that stopped the program, or a move out of what the ring holds. */
    ghost predicate Ended(op: Op)
      requires Bounded()
      reads this
    {
      match op
      case ReadBytes(_) => Avail() == 0
      case GoTo(p) =>
        || Corrupts(nSrcPos, nRewind, p)
        || nSrcPos - Position(nSrcPos, nRewind, p).0 > vchBuf.Length
      case Limit(_) => false
      case Find(_) => Avail() == 0 || failed
    }

    /** Any sequence of operations, up to one that ends the use of the file: every block of bytes handed
        out is the file at the position it was read from, and below the limit then in force. */
    method Run(ops: seq<Op>) returns (handed: seq<Block>, n: nat)
      requires Valid()
      modifies this, vchBuf
      ensures n <= |ops| && Bounded()
      ensures if n < |ops| then Ended(ops[n]) else Valid()
      ensures n < |ops| && nRewind < vchBuf.Length ==>
        failed || (ops[n].GoTo? && Corrupts(nSrcPos, nRewind, ops[n].pos))
      ensures forall i :: 0 <= i < |handed| ==> handed[i].OfFile(file)
    {
      if nRewind < vchBuf.Length { RoomBehind(); }
      handed := [];
      n := 0;
      while n < |ops|
        invariant n <= |ops| && Valid()
        invariant forall i :: 0 <= i < |handed| ==> handed[i].OfFile(file)
        decreases |ops| - n
      {
        match ops[n] {
        case ReadBytes(size) =>
          var pch := new Byte[size](i => 0);
          var from := nReadPos;
          var failure := Read(pch);
          if failure == Some(Stuck) { return; }
          if failure.None? { handed := handed + [Block(from, pch[..], nReadLimit)]; }
        case GoTo(p) =>
          var _ := SetPos(p);
          PositionInside(nSrcPos, nRewind, p);
          if nReadPos > nSrcPos || nSrcPos - nReadPos > vchBuf.Length { return; }
        case Limit(p) =>
          var _ := SetLimit(p);
        case Find(ch) =>
          var search := FindByte(ch);
          if !search.Found? { return; }
        }
        n := n + 1;
      }
    }
  }

  type Size = x: int | 0 <= x < TWO_64 / 2

  datatype Op = ReadBytes(size: Size) | GoTo(pos: Uint64) | Limit(pos: Uint64) | Find(ch: Byte)

  /** Bytes handed out, where they were read from, and the limit then in force. */
  datatype Block = Block(from: nat, bytes: seq<Byte>, limit: Uint64) {
    ghost predicate OfFile(file: seq<Byte>) {
      from + |bytes| <= |file| && from + |bytes| <= limit && bytes == file[from..from + |bytes|]
    }
  }

  /** A file of five bytes, read to the end: the request leaves the position far past the end. */
  method ReadAndCorrupt(file: seq<Byte>) returns (done: bool, position: Uint64)
    requires |file| == 5
    ensures done ==> position == TWO_64 - 5
  {
    var b := new BufferedFile(file, 100, 10);
    var pch := new Byte[5](i => 0);
    var failure := b.Read(pch);
    done, position := failure.None?, 0;
    if done {
      var _ := b.SetPos(TWO_64 - 8);
      position := b.nReadPos;
    }
  }

  /** A file of a hundred bytes, the first twenty read: asking for the current position moves it exactly
      when the system delivered more than thirty. */
  method ReadAndAsk(file: seq<Byte>) returns (done: bool, delivered: nat, position: Uint64)
    requires |file| == 100
    ensures done ==> 20 <= delivered <= 100 && position == if delivered > 30 then delivered - 10 else 20
  {
    var b := new BufferedFile(file, 100, 10);
    var pch := new Byte[20](i => 0);
    var failure := b.Read(pch);
    done, delivered, position := failure.None?, b.nSrcPos, 0;
    if done {
      var _ := b.SetPos(20);
      position := b.nReadPos;
    }
  }

  /** Once round the ring, every byte of it has been seen. */
  lemma RoundTheRing(buf: seq<Byte>, start: nat, ch: Byte)
    requires 0 < |buf| && forall p :: start <= p < start + |buf| ==> buf[p % |buf|] != ch
    ensures ch !in buf
  {
    var n := |buf|;
    forall i | 0 <= i < n ensures buf[i] != ch {
      var q, r := start / n, start % n;
      var p := if i >= r then q * n + i else (q + 1) * n + i;
      assert start == q * n + r;
      DivUnique(p, n, if i >= r then q else q + 1, i);
      assert start <= p < start + n && p % n == i;
    }
  }

  // ---- Positions in the ring ----

  /** Positions that do not go round the end of the ring keep their distance. */
  lemma Ahead(d: nat, p: nat, n: nat)
    requires n > 0 && p % n + d < n
    ensures (p + d) % n == p % n + d
  {
    var q := p / n;
    assert p + d == q * n + (p % n + d);
    DivUnique(p + d, n, q, p % n + d);
  }

  /** A position kept in the window is not among those overwritten. */
  lemma Apart(p: nat, srcPos: nat, read: nat, n: nat)
    requires n > 0 && p < srcPos && srcPos + read - n <= p && read <= n - srcPos % n
    ensures !(srcPos % n <= p % n < srcPos % n + read)
  {
    var s, r, q := srcPos % n, p % n, srcPos / n - p / n;
    assert srcPos == srcPos / n * n + s && p == p / n * n + r;
    assert srcPos - p == q * n + (s - r);
    if q >= 2 { MulAtLeast(q - 1, n); }
    else if q <= -1 { MulAtLeast(-q, n); }
  }
}
