/** bfwrite of obj_zip/zip30/fileio.c: the archive cut into splits as it is written, with items of one
    byte and writes that succeed. */
module SplitWriter {
  type Byte = x: int | 0 <= x < 256

  const M64 := 0x1_0000_0000_0000_0000

  datatype Mode = Data | LocalHeader | CentralHeader | Header

  // ---------- where a buffer goes

  /** bytes_left_in_split, an unsigned difference. */
  function Left(splits: seq<seq<Byte>>, size: nat, n: nat): nat
    requires splits != []
  {
    if size == 0 then n else (size - |Last(splits)|) % M64
  }

  function Last(splits: seq<seq<Byte>>): seq<Byte>
    requires splits != []
  {
    splits[|splits| - 1]
  }

  /** The splits once b has been written: data fills up the current split first, anything else goes
      whole to a new one. */
  function After(splits: seq<seq<Byte>>, size: nat, b: seq<Byte>, mode: Mode): (r: seq<seq<Byte>>)
    requires splits != []
    ensures |splits| <= |r| <= |splits| + 1
  {
    var left := Left(splits, size, |b|);
    if |b| <= left then splits[..|splits| - 1] + [Last(splits) + b]
    else
      var now := if mode == Data then left else 0;
      splits[..|splits| - 1] + [Last(splits) + b[..now], b[now..]]
  }

  function Extended(splits: seq<seq<Byte>>, b: seq<Byte>): seq<seq<Byte>>
    requires splits != []
  {
    splits[..|splits| - 1] + [Last(splits) + b]
  }

  lemma AfterByParts(splits: seq<seq<Byte>>, size: nat, b: seq<Byte>, mode: Mode)
    requires splits != []
    ensures var left := Left(splits, size, |b|);
            if |b| <= left then
              After(splits, size, b, mode) == (if |b| == 0 then splits else Extended(splits, b[..|b|]))
            else
              var now := if mode == Data then left else 0;
              var full := if now == 0 then splits else Extended(splits, b[..now]);
              After(splits, size, b, mode) == Extended(full + [[]], b[now..])
  {
    var left := Left(splits, size, |b|);
    assert Extended(splits, []) == splits by {
      assert Last(splits) + [] == Last(splits);
    }
    assert b[..|b|] == b;
    if |b| > left {
      var now := if mode == Data then left else 0;
      var full := Extended(splits, b[..now]);
      assert [] + b[now..] == b[now..];
      assert (full + [[]])[..|full|] == full;
    }
  }

  lemma LastsAfter(splits: seq<seq<Byte>>, size: nat, b: seq<Byte>, mode: Mode)
    requires splits != []
    ensures var r, left := After(splits, size, b, mode), Left(splits, size, |b|);
            if |b| <= left then |r| == |splits| && |Last(r)| == |Last(splits)| + |b|
            else |r| == |splits| + 1 && |Last(r)| == |b| - (if mode == Data then left else 0) > 0
  {
  }

  function Concat(splits: seq<seq<Byte>>): seq<Byte>
  {
    if splits == [] then [] else Concat(splits[..|splits| - 1]) + Last(splits)
  }

  lemma ConcatMore(splits: seq<seq<Byte>>, s: seq<Byte>)
    ensures Concat(splits + [s]) == Concat(splits) + s
  {
  }

  lemma ConcatTwo(splits: seq<seq<Byte>>, s: seq<Byte>, t: seq<Byte>)
    ensures Concat(splits + [s, t]) == Concat(splits) + (s + t)
  {
    ConcatMore(splits, s);
    ConcatMore(splits + [s], t);
    assert splits + [s] + [t] == splits + [s, t];
  }

  /** Nothing is lost, added or moved, whatever the sizes. */
  lemma AfterConserves(splits: seq<seq<Byte>>, size: nat, b: seq<Byte>, mode: Mode)
    requires splits != []
    ensures var r := After(splits, size, b, mode);
            Concat(r) == Concat(r[..|r| - 1]) + Last(r) == Concat(splits) + b
  {
    var before, left := splits[..|splits| - 1], Left(splits, size, |b|);
    var now := if |b| <= left then |b| else if mode == Data then left else 0;
    var whole, rest := Last(splits) + b[..now], b[now..];
    assert whole + rest == Last(splits) + b;
    Joined(Concat(before), Last(splits), b, whole, rest);
    if |b| <= left {
      assert b[..now] == b;
      hide Concat;
      ConcatMore(before, whole);
    } else {
      hide Concat;
      ConcatTwo(before, whole, rest);
    }
  }

  lemma Joined(c: seq<Byte>, last: seq<Byte>, b: seq<Byte>, whole: seq<Byte>, rest: seq<Byte>)
    requires whole + rest == last + b
    ensures c + (whole + rest) == c + last + b
  {
  }

  /** No split is larger than it should be. */
  ghost predicate Fit(splits: seq<seq<Byte>>, size: nat) {
    size > 0 ==> forall i :: 0 <= i < |splits| ==> |splits[i]| <= size
  }

  /** They stay so exactly when what does not go into the current split is no larger than a split. */
  lemma AfterFits(splits: seq<seq<Byte>>, size: nat, b: seq<Byte>, mode: Mode)
    requires splits != [] && Fit(splits, size) && size < M64
    ensures Fit(After(splits, size, b, mode), size)
            <==> (size > 0 ==> |b| - (if mode == Data then size - |Last(splits)| else 0) <= size
                               || |b| <= size - |Last(splits)|)
  {
    if size > 0 {
      var left, r := Left(splits, size, |b|), After(splits, size, b, mode);
      assert left == size - |Last(splits)|;
      forall i | 0 <= i < |splits| - 1
        ensures |r[i]| <= size
      {
        assert r[i] == splits[i];
      }
      if |b| > left {
        assert |r| == |splits| + 1 && r[|splits|] == if mode == Data then b[left..] else b;
      }
    }
  }

  /** A buffer too large for any split: the new split outgrows its size, and then the unsigned room
      wraps round, so that the split grows without end. */
  lemma OversizedBuffer(b: seq<Byte>, c: seq<Byte>)
    requires |b| == 25 && |c| == 1000
    ensures var splits := After([[]], 10, b, Data);
            && splits == [b[..10], b[10..]] && !Fit(splits, 10)
            && After(splits, 10, c, Data) == [b[..10], b[10..] + c]
  {
    assert Left([[]], 10, 25) == 10;
    var splits := After([[]], 10, b, Data);
    assert [] + b[..10] == b[..10];
    assert splits == [b[..10], b[10..]];
    assert Last(splits) == b[10..] && |Last(splits)| == 15;
    assert Left(splits, 10, 1000) == M64 - 5;
  }

  // ---------- headers

  datatype Placed = Placed(mode: Mode, disk: nat, offset: nat, data: seq<Byte>)

  /** Where bfwrite puts a header. */
  function Place(splits: seq<seq<Byte>>, size: nat, b: seq<Byte>, mode: Mode): Placed
    requires splits != []
  {
    if |b| <= Left(splits, size, |b|) then Placed(mode, |splits| - 1, |Last(splits)|, b)
    else Placed(mode, |splits|, 0, b)
  }

  /** All of a header lies in one split. */
  ghost predicate Whole(h: Placed, splits: seq<seq<Byte>>) {
    h.disk < |splits| && h.offset + |h.data| <= |splits[h.disk]|
    && splits[h.disk][h.offset..h.offset + |h.data|] == h.data
  }

  lemma HeaderWhole(splits: seq<seq<Byte>>, size: nat, b: seq<Byte>, mode: Mode)
    requires splits != [] && mode != Data
    ensures Whole(Place(splits, size, b, mode), After(splits, size, b, mode))
  {
  }

  lemma StaysWhole(h: Placed, splits: seq<seq<Byte>>, size: nat, b: seq<Byte>, mode: Mode)
    requires splits != [] && Whole(h, splits)
    ensures Whole(h, After(splits, size, b, mode))
  {
  }

  /** Why split i ended where it did: it was full, or the header that begins the next one had no room. */
  ghost predicate Ended(splits: seq<seq<Byte>>, size: nat, headers: seq<Placed>, i: nat) {
    i + 1 < |splits| ==>
      |splits[i]| == size
      || exists h <- headers :: h.disk == i + 1 && h.offset == 0 && |h.data| > size - |splits[i]|
  }

  lemma EndedAfter(splits: seq<seq<Byte>>, size: nat, headers: seq<Placed>, b: seq<Byte>, mode: Mode)
    requires splits != [] && Fit(splits, size) && size < M64
    requires forall i: nat :: Ended(splits, size, headers, i)
    ensures forall i: nat :: Ended(After(splits, size, b, mode), size, Noted(headers, splits, size, b, mode), i)
  {
    var r, hs := After(splits, size, b, mode), Noted(headers, splits, size, b, mode);
    forall i: nat | i + 1 < |r|
      ensures Ended(r, size, hs, i)
    {
      if i + 1 < |splits| {
        assert Ended(splits, size, headers, i) && r[i] == splits[i];
        if |splits[i]| != size {
          var h :| h in headers && h.disk == i + 1 && h.offset == 0 && |h.data| > size - |splits[i]|;
          assert h in hs;
        }
      } else if mode != Data {
        var h := Place(splits, size, b, mode);
        assert hs[|headers|] == h && h in hs;
        assert r[i] == Last(splits) + [];
      }
    }
  }

  function Noted(headers: seq<Placed>, splits: seq<seq<Byte>>, size: nat, b: seq<Byte>, mode: Mode): seq<Placed>
    requires splits != []
  {
    if mode == Data then headers else headers + [Place(splits, size, b, mode)]
  }

  /** Central headers on a disk, but for one that opened it. */
  function CentralCount(headers: seq<Placed>, disk: nat): nat {
    if headers == [] then 0
    else
      var h := headers[|headers| - 1];
      CentralCount(headers[..|headers| - 1], disk)
      + if h.mode == CentralHeader && h.disk == disk && (disk == 0 || h.offset > 0) then 1 else 0
  }

  lemma {:induction false} NoneYet(headers: seq<Placed>, disk: nat)
    requires forall h <- headers :: h.disk < disk
    ensures CentralCount(headers, disk) == 0
  {
    if headers != [] {
      assert headers[|headers| - 1] in headers;
      NoneYet(headers[..|headers| - 1], disk);
    }
  }

  // ---------- the writer

  datatype Location = Unset | At(disk: nat, offset: nat)

  class Writer {
    const splitSize: nat
    const splitMethod: nat
    var splits: seq<seq<Byte>>       // the last of them is open as y
    var bytesThisEntry: nat
    var bytesThisSplit: nat
    var bytesPrevSplits: nat
    var currentDisk: nat
    var currentLocal: Location
    var cdStart: Location
    var cdEntriesThisDisk: nat
    var totalCdEntries: nat
    ghost var headers: seq<Placed>

    ghost predicate Valid()
      reads this
    {
      && splitSize < M64 && (splitMethod == 0 ==> splitSize == 0)
      && |splits| == currentDisk + 1
      && bytesThisSplit == |Last(splits)|
      && bytesPrevSplits + bytesThisSplit == |Concat(splits)|
      && (forall h <- headers :: h.mode != Data && Whole(h, splits))
      && cdEntriesThisDisk == CentralCount(headers, currentDisk)
      && (currentDisk > 0 ==> bytesThisSplit > 0)
    }

    constructor (size: nat, splitMethod: nat)
      requires size < M64 && (splitMethod == 0 ==> size == 0)
      ensures Valid() && splits == [[]] && headers == [] && splitSize == size
      ensures bytesPrevSplits == 0 && cdStart == Unset && totalCdEntries == 0 && bytesThisEntry == 0
    {
      splitSize, this.splitMethod := size, splitMethod;
      splits, headers := [[]], [];
      bytesThisEntry, bytesThisSplit, bytesPrevSplits, currentDisk := 0, 0, 0, 0;
      currentLocal, cdStart, cdEntriesThisDisk, totalCdEntries := Unset, Unset, 0, 0;
    }

    /** What is kept of the position of local headers and of the central directory. */
    ghost predicate Marks(before: seq<seq<Byte>>, b: seq<Byte>, mode: Mode, local0: Location, cd0: Location)
      requires before != []
      reads this
    {
      var h := Place(before, splitSize, b, mode);
      && currentLocal == (if mode == LocalHeader || (mode != Data && h.disk == |before|) then At(h.disk, h.offset)
                          else local0)
      && cdStart == if mode == CentralHeader && cd0 == Unset then At(|before| - 1, |Last(before)|) else cd0
    }

    method BfWrite(b: seq<Byte>, mode: Mode) returns (bytesWritten: nat)
      requires Valid()
      modifies this
      ensures Valid() && bytesWritten == |b|
      ensures splits == After(old(splits), splitSize, b, mode)
      ensures headers == Noted(old(headers), old(splits), splitSize, b, mode)
      ensures Concat(splits) == old(Concat(splits)) + b
      ensures bytesPrevSplits + bytesThisSplit == old(bytesPrevSplits + bytesThisSplit) + |b|
      ensures bytesThisEntry
              == (if mode == LocalHeader then 0 else old(bytesThisEntry)) + if mode == Data then |b| else 0
      ensures Marks(old(splits), b, mode, old(currentLocal), old(cdStart))
      ensures totalCdEntries == old(totalCdEntries) + if mode == CentralHeader then 1 else 0
    {
      hide Concat, CentralCount, Whole, After, Noted;
      ghost var was, placed := splits, headers;
      AfterConserves(splits, splitSize, b, mode);
      HeadersStay(was, placed, b, mode);
      LastsAfter(was, splitSize, b, mode);
      bytesThisEntry := if mode == LocalHeader then 0 else bytesThisEntry;
      currentLocal := if mode == LocalHeader then At(currentDisk, bytesThisSplit) else currentLocal;
      var left := if splitSize == 0 then |b| else (splitSize - bytesThisSplit) % M64;
      assert left == Left(was, splitSize, |b|);
      if mode == CentralHeader {
        if cdStart == Unset {
          cdStart := At(currentDisk, bytesThisSplit);
        }
        cdEntriesThisDisk, totalCdEntries := cdEntriesThisDisk + 1, totalCdEntries + 1;
      }
      bytesWritten := WriteParts(b, mode, left);
      headers := Noted(headers, was, splitSize, b, mode);
    }

    /** What fits in the current split, then the rest in the next. */
    method WriteParts(b: seq<Byte>, mode: Mode, left: nat) returns (bytesWritten: nat)
      requires |splits| == currentDisk + 1 && (splitMethod == 0 ==> splitSize == 0)
      requires left == Left(splits, splitSize, |b|)
      modifies this`splits, this`bytesThisSplit, this`bytesPrevSplits, this`currentDisk, this`cdEntriesThisDisk,
        this`bytesThisEntry, this`currentLocal
      ensures bytesWritten == |b| && splits == After(old(splits), splitSize, b, mode)
      ensures bytesThisEntry == old(bytesThisEntry) + if mode == Data then |b| else 0
      ensures if |b| <= left then
                bytesThisSplit == old(bytesThisSplit) + |b| && bytesPrevSplits == old(bytesPrevSplits)
                && currentDisk == old(currentDisk) && currentLocal == old(currentLocal)
                && cdEntriesThisDisk == old(cdEntriesThisDisk)
              else
                var now := if mode == Data then left else 0;
                bytesThisSplit == |b| - now && bytesPrevSplits == old(bytesPrevSplits + bytesThisSplit) + now
                && currentDisk == old(currentDisk) + 1 && cdEntriesThisDisk == 0
                && currentLocal == if mode == Data then old(currentLocal) else At(currentDisk, 0)
    {
      AfterByParts(splits, splitSize, b, mode);
      hide After, Extended;
      bytesWritten := 0;
      var toWrite: nat := |b|;
      if toWrite > left {
        toWrite := if mode != Data then 0 else left;
      }
      if toWrite > 0 {
        Put(b[..toWrite], mode);
        bytesWritten := toWrite;
        toWrite := |b| - toWrite;
      } else {
        toWrite := |b|;
      }
      if toWrite > 0 && splitMethod != 0 {
        NextSplit();
        Put(b[bytesWritten..], mode);
        bytesWritten := |b|;
        if mode != Data {
          currentLocal := At(currentDisk, 0);
        }
      }
    }

    /** fwrite of all the bytes, and the counters. */
    method Put(b: seq<Byte>, mode: Mode)
      requires splits != []
      modifies this`splits, this`bytesThisSplit, this`bytesThisEntry
      ensures splits == Extended(old(splits), b) && |splits| == |old(splits)|
      ensures bytesThisSplit == old(bytesThisSplit) + |b|
      ensures bytesThisEntry == old(bytesThisEntry) + if mode == Data then |b| else 0
    {
      splits := Extended(splits, b);
      bytesThisSplit := bytesThisSplit + |b|;
      if mode == Data {
        bytesThisEntry := bytesThisEntry + |b|;
      }
    }

    method NextSplit()
      modifies this`splits, this`bytesThisSplit, this`bytesPrevSplits, this`currentDisk, this`cdEntriesThisDisk
      ensures splits == old(splits) + [[]] && bytesThisSplit == 0 && cdEntriesThisDisk == 0
      ensures bytesPrevSplits == old(bytesPrevSplits + bytesThisSplit) && currentDisk == old(currentDisk) + 1
    {
      bytesPrevSplits := bytesPrevSplits + bytesThisSplit;
      cdEntriesThisDisk, bytesThisSplit := 0, 0;
      currentDisk := currentDisk + 1;
      splits := splits + [[]];
    }

    lemma HeadersStay(was: seq<seq<Byte>>, placed: seq<Placed>, b: seq<Byte>, mode: Mode)
      requires was != [] && splitSize < M64 && forall h <- placed :: h.mode != Data && Whole(h, was)
      ensures var r, hs := After(was, splitSize, b, mode), Noted(placed, was, splitSize, b, mode);
              && (forall h <- hs :: h.mode != Data && Whole(h, r))
              && (|r| > |was| ==> CentralCount(hs, |was|) == 0)
              && (|r| == |was| ==> CentralCount(hs, |was| - 1) == CentralCount(placed, |was| - 1)
                                    + if mode == CentralHeader && (|was| == 1 || |Last(was)| > 0) then 1 else 0)
    {
      var r, hs := After(was, splitSize, b, mode), Noted(placed, was, splitSize, b, mode);
      forall h | h in hs
        ensures h.mode != Data && Whole(h, r)
      {
        if h in placed {
          StaysWhole(h, was, splitSize, b, mode);
        } else {
          HeaderWhole(was, splitSize, b, mode);
        }
      }
      if mode != Data {
        assert hs[..|hs| - 1] == placed;
      }
      if |r| > |was| {
        NoneYet(placed, |was|);
      }
    }
  }

  // ---------- where the directory begins

  /** The recorded start of the central directory is where its first header lies exactly when that
      header fitted into the current split. */
  lemma CdStartRight(w: Writer, before: seq<seq<Byte>>, b: seq<Byte>, local0: Location)
    requires before != [] && w.Marks(before, b, CentralHeader, local0, Unset)
    ensures var h := Place(before, w.splitSize, b, CentralHeader);
            w.cdStart == At(h.disk, h.offset) <==> |b| <= Left(before, w.splitSize, |b|)
  {
  }

  /** All central headers on a disk. */
  function OnDisk(headers: seq<Placed>, disk: nat): nat {
    if headers == [] then 0
    else
      var h := headers[|headers| - 1];
      OnDisk(headers[..|headers| - 1], disk) + if h.mode == CentralHeader && h.disk == disk then 1 else 0
  }

  ghost predicate OpenedByCentral(headers: seq<Placed>, disk: nat) {
    disk > 0 && exists h <- headers :: h.mode == CentralHeader && h.disk == disk && h.offset == 0
  }

  /** The count of directory entries on the current disk is right exactly when the disk was not opened
      by one of them; that one is never counted. */
  lemma {:induction false} CountRight(headers: seq<Placed>, disk: nat)
    ensures CentralCount(headers, disk) <= OnDisk(headers, disk)
    ensures CentralCount(headers, disk) == OnDisk(headers, disk) <==> !OpenedByCentral(headers, disk)
  {
    if headers != [] {
      var before, h := headers[..|headers| - 1], headers[|headers| - 1];
      CountRight(before, disk);
      assert headers == before + [h];
    }
  }

  /** Splits of 100 bytes, 90 bytes of data, then a central header of 46: it lies at the start of split 1,
      but the directory is recorded to begin in split 0, and the count for split 1 stays at none. */
  method StaleDirectory(s: seq<Byte>, b: seq<Byte>) returns (w: Writer)
    requires |s| == 90 && |b| == 46
    ensures w.Valid() && w.splits == [s, b] && w.currentDisk == 1
    ensures w.headers == [Placed(CentralHeader, 1, 0, b)]
    ensures w.cdStart == At(0, 90)
    ensures w.cdEntriesThisDisk == 0 && OnDisk(w.headers, 1) == 1 && OpenedByCentral(w.headers, 1)
  {
    hide After, CentralCount, OnDisk, OpenedByCentral;
    FillsUp(s);
    GoesNext(s, b);
    OneHeader(Placed(CentralHeader, 1, 0, b));
    w := new Writer(100, 1);
    var _ := w.BfWrite(s, Data);
    var _ := w.BfWrite(b, CentralHeader);
    assert w.headers == [] + [Placed(CentralHeader, 1, 0, b)];
  }

  lemma FillsUp(s: seq<Byte>)
    requires |s| == 90
    ensures After([[]], 100, s, Data) == [s] && Left([[]], 100, 90) == 100
  {
    var none: seq<seq<Byte>> := [[]];
    assert Last(none) == [] && [] + s == s && none[..0] == [];
    assert Left(none, 100, 90) == 100;
  }

  lemma GoesNext(s: seq<Byte>, b: seq<Byte>)
    requires |s| == 90 && |b| == 46
    ensures After([s], 100, b, CentralHeader) == [s, b] && Left([s], 100, 46) == 10 && Last([s]) == s
  {
    assert Last([s]) == s && s + [] == s && [s][..0] == [] && b[0..] == b;
    assert Left([s], 100, 46) == 10;
  }

  lemma OneHeader(h: Placed)
    requires h.mode == CentralHeader && h.disk == 1 && h.offset == 0
    ensures CentralCount([h], 1) == 0 && OnDisk([h], 1) == 1 && OpenedByCentral([h], 1)
  {
    assert CentralCount([], 1) == 0 && OnDisk([], 1) == 0 && [h][..0] == [];
    assert h in [h];
  }

  // ---------- whole runs

  datatype Call = Call(buffer: seq<Byte>, mode: Mode)

  function Buffers(calls: seq<Call>): seq<Byte> {
    if calls == [] then [] else Buffers(calls[..|calls| - 1]) + calls[|calls| - 1].buffer
  }

  /** The calls that write a header. */
  function HeaderCalls(calls: seq<Call>): seq<Call> {
    if calls == [] then []
    else
      var c := calls[|calls| - 1];
      HeaderCalls(calls[..|calls| - 1]) + if c.mode == Data then [] else [c]
  }

  function Named(headers: seq<Placed>): seq<Call> {
    seq(|headers|, i requires 0 <= i < |headers| => Call(headers[i].data, headers[i].mode))
  }

  lemma NamedMore(headers: seq<Placed>, splits: seq<seq<Byte>>, size: nat, b: seq<Byte>, mode: Mode)
    requires splits != []
    ensures Named(Noted(headers, splits, size, b, mode))
         == Named(headers) + if mode == Data then [] else [Call(b, mode)]
  {
  }

  /** Any run of calls: the splits together are the buffers together; the headers placed are those that
      calls have written, in order, and each of them lies whole in one split; and if no buffer is larger
      than a split then no split is too large, and each but the last is full or was ended by a header that
      had no room in it. */
  method WriteAll(size: nat, splitMethod: nat, calls: seq<Call>) returns (w: Writer)
    requires size < M64 && (splitMethod == 0 ==> size == 0)
    ensures w.Valid() && Concat(w.splits) == Buffers(calls)
    ensures w.bytesPrevSplits + w.bytesThisSplit == |Buffers(calls)|
    ensures Named(w.headers) == HeaderCalls(calls) && forall h <- w.headers :: Whole(h, w.splits)
    ensures (forall c <- calls :: |c.buffer| <= size) ==>
              Fit(w.splits, size) && forall i: nat :: Ended(w.splits, size, w.headers, i)
  {
    hide Concat, Ended, Fit, After, Noted, Whole, Named;
    NamedNone();
    w := new Writer(size, splitMethod);
    FirstSplit(size);
    for k := 0 to |calls|
      invariant w.Valid() && fresh(w) && w.splitSize == size && Concat(w.splits) == Buffers(calls[..k])
      invariant w.bytesPrevSplits + w.bytesThisSplit == |Buffers(calls[..k])|
      invariant Named(w.headers) == HeaderCalls(calls[..k])
      invariant (forall c <- calls :: |c.buffer| <= size) ==>
                  Fit(w.splits, size) && forall i: nat :: Ended(w.splits, size, w.headers, i)
    {
      ghost var c := calls[k];
      if forall c <- calls :: |c.buffer| <= size {
        assert c in calls;
        StaysRight(w.splits, size, w.headers, c.buffer, c.mode);
      }
      NamedMore(w.headers, w.splits, size, c.buffer, c.mode);
      var _ := w.BfWrite(calls[k].buffer, calls[k].mode);
      assert calls[..k + 1][..k] == calls[..k];
    }
    assert calls[..|calls|] == calls;
  }

  lemma StaysRight(splits: seq<seq<Byte>>, size: nat, headers: seq<Placed>, b: seq<Byte>, mode: Mode)
    requires splits != [] && Fit(splits, size) && size < M64 && |b| <= size
    requires forall i: nat :: Ended(splits, size, headers, i)
    ensures Fit(After(splits, size, b, mode), size)
    ensures forall i: nat :: Ended(After(splits, size, b, mode), size, Noted(headers, splits, size, b, mode), i)
  {
    AfterFits(splits, size, b, mode);
    EndedAfter(splits, size, headers, b, mode);
  }

  lemma NamedNone()
    ensures Named([]) == []
  {
  }

  lemma FirstSplit(size: nat)
    ensures Concat([[]]) == [] && Fit([[]], size) && forall i: nat :: Ended([[]], size, [], i)
  {
  }
}
