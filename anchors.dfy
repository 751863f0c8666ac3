/**
 * Proof that the scanner anchors every resource it records at the records it
 * was read from: the BRS at its start, the ERS that closes it, and the record
 * its hashed bytes begin with.
 */
module ScanAnchors {
  import opened Wrappers
  import opened Afp
  import opened Naming
  import opened Scanner

  /** A scan step that fails, or leaves the resources anchored with the buffer ending at `cur`. */
  ghost predicate AnchoredResult(t: Result<ScanState, ScanError>, recs: seq<Rec>, cur: int)
  {
    t.Ok? ==> Anchored(t.value, recs, cur)
  }

  lemma OffsetSnoc(recs: seq<Rec>, r: Rec, j: nat)
    requires j <= |recs|
    ensures Offset(recs + [r], j) == Offset(recs, j)
  {
    assert (recs + [r])[..j] == recs[..j];
  }

  /** A BMM record before the end of the records read so far was already there. */
  lemma BmmRecordSnoc(recs: seq<Rec>, r: Rec, j: int, pos: int)
    requires BmmRecord(recs + [r], j, pos) && pos < |Bytes(recs)|
    ensures BmmRecord(recs, j, pos)
  {
    OffsetSnoc(recs, r, j);
    LastOffsets(recs, r);
  }

  /** Reading one more record adds no BMM record before the end of the records read so far. */
  lemma NoBmmGrow(recs: seq<Rec>, r: Rec, lo: int, hi: int)
    requires NoBmmWithin(recs, lo, hi) && hi <= |Bytes(recs)|
    ensures NoBmmWithin(recs + [r], lo, hi)
  {
    forall pos, j | lo <= pos < hi && BmmRecord(recs + [r], j, pos)
      ensures BmmAt(recs, pos)
    {
      BmmRecordSnoc(recs, r, j, pos);
    }
  }

  /** Reading one more record keeps every record where it was, and adds none before the ends of the resources and the buffer. */
  lemma AnchoredGrow(s: ScanState, recs: seq<Rec>, r: Rec, cur: int)
    requires Anchored(s, recs, cur) && cur <= |Bytes(recs)|
    requires forall k :: k in s.file.filePos && s.file.filePos[k].hash.Some? ==> s.file.filePos[k].end <= |Bytes(recs)|
    ensures Anchored(s, recs + [r], cur)
  {
    var recs' := recs + [r];
    forall pos, k | BrsAt(recs, pos, k)
      ensures BrsAt(recs', pos, k)
    {
      var j :| BrsRecord(recs, j, pos, k);
      OffsetSnoc(recs, r, j);
      assert recs'[j] == recs[j];
      assert BrsRecord(recs', j, pos, k);
    }
    forall pos, end | ErsAt(recs, pos, end)
      ensures ErsAt(recs', pos, end)
    {
      var j :| ErsRecord(recs, j, pos, end);
      OffsetSnoc(recs, r, j);
      OffsetSnoc(recs, r, j + 1);
      assert recs'[j] == recs[j];
      assert ErsRecord(recs', j, pos, end);
    }
    forall pos | BmmAt(recs, pos)
      ensures BmmAt(recs', pos)
    {
      var j :| BmmRecord(recs, j, pos);
      OffsetSnoc(recs, r, j);
      assert recs'[j] == recs[j];
      assert BmmRecord(recs', j, pos);
    }
    forall k | k in s.file.filePos
      ensures ResAnchored(recs', k, s.file.filePos[k])
    {
      var e := s.file.filePos[k];
      assert ResAnchored(recs, k, e);
      if e.hash.Some? && e.end - |e.content| != e.start {
        NoBmmGrow(recs, r, e.end - |e.content| + 1, e.end);
      }
    }
    if s.resource.Some? && s.buffer.Some? && s.resource.value in s.file.filePos {
      var b := cur - |s.buffer.value|;
      if b != s.file.filePos[s.resource.value].start {
        NoBmmGrow(recs, r, b + 1, cur);
      }
    }
  }

  lemma AnchoredBrs(s: ScanState, f: Field, recs: seq<Rec>)
    requires Open(s) && f.BRS? && Anchored(s, recs, s.prevFilePos) && BrsAt(recs, s.prevFilePos, KeyOfBrs(f))
    ensures Anchored(OnBrs(s, f), recs, s.prevFilePos)
  {
    var k0 := KeyOfBrs(f);
    var t := OnBrs(s, f);
    if k0.objType == FormMap {
      AnchoredSame(s, t, recs, s.prevFilePos);
    } else {
      var e := Resource(s.prevFilePos, 0, 0, [], None);
      var fp := s.file.filePos[k0 := e];
      assert t.file.filePos == fp && t.resource == Some(k0) && t.buffer == Some([]);
      assert ResAnchored(recs, k0, e);
      forall k | k in fp
        ensures ResAnchored(recs, k, fp[k])
      {
        if k != k0 {
          assert fp[k] == s.file.filePos[k];
        }
      }
    }
  }

  lemma AnchoredBmm(s: ScanState, f: Field, recs: seq<Rec>)
    requires Open(s) && f.BMM? && Anchored(s, recs, s.prevFilePos) && BmmAt(recs, s.prevFilePos)
    ensures Anchored(OnBmm(s, f.mmName), recs, s.prevFilePos)
  {
    var t := OnBmm(s, f.mmName);
    if s.isFirstFormdef {
      assert t.file.filePos == s.file.filePos && t.resource == s.resource && t.buffer == Some([]) && t.isFirstFormdef;
    } else {
      assert t == s;
    }
  }

  lemma AnchoredFormdef(s: ScanState, f: Field, recs: seq<Rec>, cur: int)
    requires Open(s) && Anchored(s, recs, cur)
    ensures Anchored(AddToFormdef(s, f), recs, cur)
  {
    var t := AddToFormdef(s, f);
    assert t.file.filePos == s.file.filePos && t.resource == s.resource && t.buffer == s.buffer;
    assert t.isFirstFormdef == s.isFirstFormdef;
    AnchoredSame(s, t, recs, cur);
  }

  /**
   * Appending the field's bytes to the buffer moves its end, not its start;
   * the field adds no BMM record after the buffer's start.
   */
  lemma AnchoredBuffer(s: ScanState, f: Field, raw: seq<byte>, recs: seq<Rec>, cur: int)
    requires Open(s) && Anchored(s, recs, cur) && NoBmmWithin(recs, cur + 1, cur + |raw|)
    requires s.isFirstFormdef && s.buffer.Some? && s.buffer.value != [] ==> NoBmmWithin(recs, cur, cur + |raw|)
    ensures Anchored(AddToMapAndBuffer(s, f, raw), recs, cur + |raw|)
  {
    BufferAppended(s, f, raw);
    AnchoredExtend(s, AddToMapAndBuffer(s, f, raw), recs, cur, |raw|);
  }

  /** Appending to the buffer touches neither the resources nor the phase. */
  lemma BufferAppended(s: ScanState, f: Field, raw: seq<byte>)
    requires Open(s)
    ensures var u := AddToMapAndBuffer(s, f, raw);
            && u.file.filePos == s.file.filePos && u.resource == s.resource && u.isFirstFormdef == s.isFirstFormdef
            && (u.buffer.Some? <==> s.buffer.Some?) && (u.buffer.Some? ==> u.buffer.value == s.buffer.value + raw)
  {
  }

  /** A buffer that grows by `n` bytes without a BMM record in them keeps the invariant. */
  lemma AnchoredExtend(s: ScanState, u: ScanState, recs: seq<Rec>, cur: int, n: nat)
    requires Anchored(s, recs, cur) && NoBmmWithin(recs, cur + 1, cur + n)
    requires s.isFirstFormdef && s.buffer.Some? && s.buffer.value != [] ==> NoBmmWithin(recs, cur, cur + n)
    requires u.file.filePos == s.file.filePos && u.resource == s.resource && u.isFirstFormdef == s.isFirstFormdef
    requires u.buffer.Some? <==> s.buffer.Some?
    requires u.buffer.Some? ==> |u.buffer.value| == |s.buffer.value| + n
    ensures Anchored(u, recs, cur + n)
  {
    if s.resource.Some? && s.buffer.Some? && s.resource.value in s.file.filePos {
      var b := cur - |s.buffer.value|;
      if b != s.file.filePos[s.resource.value].start && b < cur {
        NoBmmJoin(recs, b + 1, cur, cur + n);
      }
    }
  }

  /** Two adjacent ranges without a BMM record make one. */
  lemma NoBmmJoin(recs: seq<Rec>, lo: int, mid: int, hi: int)
    requires NoBmmWithin(recs, lo, mid) && NoBmmWithin(recs, mid, hi)
    ensures NoBmmWithin(recs, lo, hi)
  {
  }

  /** A field other than a BMM adds no BMM record after the buffer's start. */
  lemma AnchoredCommon(s: ScanState, f: Field, raw: seq<byte>, recs: seq<Rec>, cur: int)
    requires Open(s) && Anchored(s, recs, cur) && NoBmmWithin(recs, cur, cur + |raw|)
    ensures Anchored(Common(s, f, raw), recs, cur + |raw|)
  {
    AnchoredFormdef(s, f, recs, cur);
    AnchoredBuffer(AddToFormdef(s, f), f, raw, recs, cur);
  }

  lemma AnchoredEmm(s: ScanState, filepos: nat, recs: seq<Rec>, cur: int, digest: seq<byte> -> seq<byte>)
    requires Open(s) && Anchored(s, recs, cur)
    ensures Anchored(OnEmm(s, filepos, digest), recs, cur)
  {
    var t := OnEmm(s, filepos, digest);
    assert t.file.filePos == s.file.filePos && t.resource == s.resource;
    assert t.buffer.Some? ==> t.buffer == s.buffer && t.isFirstFormdef == s.isFirstFormdef;
    AnchoredSame(s, t, recs, cur);
  }

  /** The ERS completes the open resource: it ends where the ERS ends, and its hash starts where the buffer does. */
  lemma AnchoredErs(s: ScanState, filepos: nat, recs: seq<Rec>, digest: seq<byte> -> seq<byte>)
    requires Open(s) && Anchored(s, recs, filepos) && ErsAt(recs, s.prevFilePos, filepos)
    ensures AnchoredResult(OnErs(s, filepos, digest), recs, filepos)
  {
    if s.buffer.None? {
      AnchoredSame(s, s.(isFirstFormdef := false), recs, filepos);
    } else if s.resource.None? {
      AnchoredSame(s, s.(buffer := None, key := None, resource := None), recs, filepos);
    } else if s.key.Some? {
      var rk := s.resource.value;
      var b := s.buffer.value;
      var res := s.file.filePos[rk].(ersPos := s.prevFilePos, end := filepos, hash := Some(Hex(digest(b))), content := b);
      var fp := s.file.filePos[rk := res];
      var t := OnErs(s, filepos, digest).value;
      assert t.file.filePos == fp && t.resource == None;
      assert ResAnchored(recs, rk, s.file.filePos[rk]);
      assert ResAnchored(recs, rk, res);
      forall k | k in fp
        ensures ResAnchored(recs, k, fp[k])
      {
        if k != rk {
          assert fp[k] == s.file.filePos[k];
        }
      }
    }
  }

  /** The field's block for one tag, unfolded. */
  lemma FieldStepOf(s: ScanState, f: Field, raw: seq<byte>, cur: nat, digest: seq<byte> -> seq<byte>)
    requires Open(s) && !f.ERG?
    ensures f.BRS? ==> FieldStep(s, f, raw, cur, digest) == Ok(Common(OnBrs(s, f), f, raw))
    ensures f.BMM? ==> FieldStep(s, f, raw, cur, digest) == Ok(AddToMapAndBuffer(OnBmm(AddToFormdef(s, f), f.mmName), f, raw))
    ensures f.ERS? ==> FieldStep(s, f, raw, cur, digest) == OnErs(Common(s, f, raw), cur, digest)
  {
  }

  lemma FieldStepAnchoredBrs(s: ScanState, f: Field, raw: seq<byte>, recs: seq<Rec>, digest: seq<byte> -> seq<byte>)
    requires Open(s) && f.BRS? && Anchored(s, recs, s.prevFilePos) && BrsAt(recs, s.prevFilePos, KeyOfBrs(f))
    requires NoBmmWithin(recs, s.prevFilePos, s.prevFilePos + |raw|)
    ensures AnchoredResult(FieldStep(s, f, raw, s.prevFilePos + |raw|, digest), recs, s.prevFilePos + |raw|)
  {
    BrsBlockAnchored(s, f, raw, recs);
    FieldStepOf(s, f, raw, s.prevFilePos + |raw|, digest);
  }

  lemma BrsBlockAnchored(s: ScanState, f: Field, raw: seq<byte>, recs: seq<Rec>)
    requires Open(s) && f.BRS? && Anchored(s, recs, s.prevFilePos) && BrsAt(recs, s.prevFilePos, KeyOfBrs(f))
    requires NoBmmWithin(recs, s.prevFilePos, s.prevFilePos + |raw|)
    ensures Anchored(Common(OnBrs(s, f), f, raw), recs, s.prevFilePos + |raw|)
  {
    AnchoredBrs(s, f, recs);
    AnchoredCommon(OnBrs(s, f), f, raw, recs, s.prevFilePos);
  }

  lemma FieldStepAnchoredBmm(s: ScanState, f: Field, raw: seq<byte>, recs: seq<Rec>, digest: seq<byte> -> seq<byte>)
    requires Open(s) && f.BMM? && Anchored(s, recs, s.prevFilePos) && BmmAt(recs, s.prevFilePos)
    requires NoBmmWithin(recs, s.prevFilePos + 1, s.prevFilePos + |raw|)
    ensures AnchoredResult(FieldStep(s, f, raw, s.prevFilePos + |raw|, digest), recs, s.prevFilePos + |raw|)
  {
    BmmBlockAnchored(s, f, raw, recs);
    FieldStepOf(s, f, raw, s.prevFilePos + |raw|, digest);
  }

  lemma BmmBlockAnchored(s: ScanState, f: Field, raw: seq<byte>, recs: seq<Rec>)
    requires Open(s) && f.BMM? && Anchored(s, recs, s.prevFilePos) && BmmAt(recs, s.prevFilePos)
    requires NoBmmWithin(recs, s.prevFilePos + 1, s.prevFilePos + |raw|)
    ensures Anchored(AddToMapAndBuffer(OnBmm(AddToFormdef(s, f), f.mmName), f, raw), recs, s.prevFilePos + |raw|)
  {
    var t := AddToFormdef(s, f);
    AnchoredFormdef(s, f, recs, s.prevFilePos);
    AnchoredBmm(t, f, recs);
    AnchoredBuffer(OnBmm(t, f.mmName), f, raw, recs, s.prevFilePos);
  }

  lemma FieldStepAnchoredErs(s: ScanState, f: Field, raw: seq<byte>, recs: seq<Rec>, digest: seq<byte> -> seq<byte>)
    requires Open(s) && f.ERS? && Anchored(s, recs, s.prevFilePos) && ErsAt(recs, s.prevFilePos, s.prevFilePos + |raw|)
    requires NoBmmWithin(recs, s.prevFilePos, s.prevFilePos + |raw|)
    ensures AnchoredResult(FieldStep(s, f, raw, s.prevFilePos + |raw|, digest), recs, s.prevFilePos + |raw|)
  {
    ErsBlockAnchored(s, f, raw, recs, digest);
    FieldStepOf(s, f, raw, s.prevFilePos + |raw|, digest);
  }

  lemma ErsBlockAnchored(s: ScanState, f: Field, raw: seq<byte>, recs: seq<Rec>, digest: seq<byte> -> seq<byte>)
    requires Open(s) && Anchored(s, recs, s.prevFilePos) && ErsAt(recs, s.prevFilePos, s.prevFilePos + |raw|)
    requires NoBmmWithin(recs, s.prevFilePos, s.prevFilePos + |raw|)
    ensures AnchoredResult(OnErs(Common(s, f, raw), s.prevFilePos + |raw|, digest), recs, s.prevFilePos + |raw|)
  {
    AnchoredCommon(s, f, raw, recs, s.prevFilePos);
    AnchoredErs(Common(s, f, raw), s.prevFilePos + |raw|, recs, digest);
  }

  /** The other tags leave the resources alone. */
  lemma FieldStepAnchoredOther(s: ScanState, f: Field, raw: seq<byte>, recs: seq<Rec>, digest: seq<byte> -> seq<byte>)
    requires Open(s) && !(f.ERG? || f.BRS? || f.BMM? || f.ERS?) && Anchored(s, recs, s.prevFilePos)
    requires NoBmmWithin(recs, s.prevFilePos, s.prevFilePos + |raw|)
    ensures AnchoredResult(FieldStep(s, f, raw, s.prevFilePos + |raw|, digest), recs, s.prevFilePos + |raw|)
  {
    var cur := s.prevFilePos + |raw|;
    if f.BFM? {
      BfmBlockAnchored(s, f, raw, recs);
    } else if f.EMM? {
      EmmBlockAnchored(s, f, raw, recs, digest);
    } else if f.EFM? {
      EfmBlockAnchored(s, f, raw, recs);
    } else {
      AnchoredCommon(s, f, raw, recs, s.prevFilePos);
    }
    FieldStepCases(s, f, raw, cur, digest);
  }

  lemma BfmBlockAnchored(s: ScanState, f: Field, raw: seq<byte>, recs: seq<Rec>)
    requires Open(s) && Anchored(s, recs, s.prevFilePos) && NoBmmWithin(recs, s.prevFilePos, s.prevFilePos + |raw|)
    ensures Anchored(Common(OnBfm(s), f, raw), recs, s.prevFilePos + |raw|)
  {
    AnchoredSame(s, OnBfm(s), recs, s.prevFilePos);
    AnchoredCommon(OnBfm(s), f, raw, recs, s.prevFilePos);
  }

  lemma EmmBlockAnchored(s: ScanState, f: Field, raw: seq<byte>, recs: seq<Rec>, digest: seq<byte> -> seq<byte>)
    requires Open(s) && Anchored(s, recs, s.prevFilePos) && NoBmmWithin(recs, s.prevFilePos, s.prevFilePos + |raw|)
    ensures Anchored(OnEmm(Common(s, f, raw), s.prevFilePos + |raw|, digest), recs, s.prevFilePos + |raw|)
  {
    AnchoredCommon(s, f, raw, recs, s.prevFilePos);
    AnchoredEmm(Common(s, f, raw), s.prevFilePos + |raw|, recs, s.prevFilePos + |raw|, digest);
  }

  lemma EfmBlockAnchored(s: ScanState, f: Field, raw: seq<byte>, recs: seq<Rec>)
    requires Open(s) && Anchored(s, recs, s.prevFilePos) && NoBmmWithin(recs, s.prevFilePos, s.prevFilePos + |raw|)
    ensures Anchored(Common(s, f, raw).(processingFormdef := false), recs, s.prevFilePos + |raw|)
  {
    var cur := s.prevFilePos + |raw|;
    AnchoredCommon(s, f, raw, recs, s.prevFilePos);
    var t := Common(s, f, raw);
    AnchoredSame(t, t.(processingFormdef := false), recs, cur);
  }

  lemma FieldStepAnchored(s: ScanState, f: Field, raw: seq<byte>, recs: seq<Rec>, digest: seq<byte> -> seq<byte>)
    requires Open(s) && !f.ERG? && Anchored(s, recs, s.prevFilePos) && AnchorsOf(recs, f, raw, s.prevFilePos)
    ensures AnchoredResult(FieldStep(s, f, raw, s.prevFilePos + |raw|, digest), recs, s.prevFilePos + |raw|)
  {
    if f.BRS? {
      FieldStepAnchoredBrs(s, f, raw, recs, digest);
    } else if f.BMM? {
      FieldStepAnchoredBmm(s, f, raw, recs, digest);
    } else if f.ERS? {
      FieldStepAnchoredErs(s, f, raw, recs, digest);
    } else {
      FieldStepAnchoredOther(s, f, raw, recs, digest);
    }
  }

  lemma AnchoredAdvance(s: ScanState, p: nat, recs: seq<Rec>, cur: int)
    requires Anchored(s, recs, cur)
    ensures Anchored(s.(prevFilePos := p), recs, cur)
  {
  }

  /** The record just read begins where the previous ones end, and no other record begins inside it. */
  lemma LastAnchors(seen: seq<Rec>, r: Rec)
    requires Framed(seen)
    ensures AnchorsOf(seen + [r], r.field, r.raw, |Bytes(seen)|)
  {
    var recs, j, p := seen + [r], |seen|, |Bytes(seen)|;
    LastOffsets(seen, r);
    if r.field.BRS? {
      assert BrsRecord(recs, j, p, KeyOfBrs(r.field));
    } else if r.field.BMM? {
      assert BmmRecord(recs, j, p);
    } else if r.field.ERS? {
      assert ErsRecord(recs, j, p, p + |r.raw|);
    }
    forall pos, i | p <= pos && BmmRecord(recs, i, pos)
      ensures i == j && pos == p
    {
      LastBmm(seen, r, i, pos);
    }
  }

  /** Every earlier record begins before the end of the bytes read. */
  lemma OffsetBeforeEnd(seen: seq<Rec>, j: int)
    requires Framed(seen) && 0 <= j <= |seen|
    ensures j < |seen| ==> Offset(seen, j) < |Bytes(seen)|
  {
    if j < |seen| {
      OffsetStrict(seen, j, |seen|);
      assert seen[..|seen|] == seen;
    }
  }

  /** A BMM record at or after the end of the earlier records is the last record. */
  lemma LastBmm(seen: seq<Rec>, r: Rec, j: int, pos: int)
    requires Framed(seen) && BmmRecord(seen + [r], j, pos) && |Bytes(seen)| <= pos
    ensures j == |seen| && pos == |Bytes(seen)|
  {
    OffsetSnoc(seen, r, j);
    OffsetBeforeEnd(seen, j);
    LastOffsets(seen, r);
  }

  /** The last record begins where the earlier ones end and ends where the bytes do. */
  lemma LastOffsets(seen: seq<Rec>, r: Rec)
    ensures Offset(seen + [r], |seen|) == |Bytes(seen)|
    ensures Offset(seen + [r], |seen| + 1) == |Bytes(seen)| + |r.raw|
  {
    var recs, j := seen + [r], |seen|;
    OffsetSnoc(seen, r, j);
    assert seen[..j] == seen;
    assert recs[..j + 1] == recs;
    BytesSnoc(seen, r);
  }

  /** Advancing the previous offset after the field's block keeps the invariant. */
  lemma AnchoredAfterBlock(t: Result<ScanState, ScanError>, u: Result<ScanState, ScanError>, erg: bool, fp: nat, recs: seq<Rec>)
    requires AnchoredResult(t, recs, fp)
    requires !erg
    requires u == if t.Err? || erg then t else Ok(t.value.(prevFilePos := fp))
    ensures u.Ok? ==> Anchored(u.value, recs, u.value.prevFilePos)
  {
  }

  lemma StepAnchoredField(s: ScanState, recs: seq<Rec>, r: Rec, digest: seq<byte> -> seq<byte>)
    requires Open(s) && !s.done && !r.field.ERG?
    requires Anchored(s, recs, s.prevFilePos) && AnchorsOf(recs, r.field, r.raw, s.prevFilePos)
    ensures Step(s, r, digest).Ok? ==> Anchored(Step(s, r, digest).value, recs, Step(s, r, digest).value.prevFilePos)
  {
    FieldStepAnchored(s, r.field, r.raw, recs, digest);
    StepUnfold(s, r, digest);
    AnchoredAfterBlock(FieldStep(s, r.field, r.raw, s.prevFilePos + |r.raw|, digest), Step(s, r, digest),
                       r.field.ERG?, s.prevFilePos + |r.raw|, recs);
  }

  lemma StepAnchored(s: ScanState, seen: seq<Rec>, r: Rec, digest: seq<byte> -> seq<byte>)
    requires Inv(s, seen, digest) && Anchored(s, seen, s.prevFilePos) && Framed(seen)
    ensures Step(s, r, digest).Ok? ==> Anchored(Step(s, r, digest).value, seen + [r], Step(s, r, digest).value.prevFilePos)
  {
    AnchoredGrow(s, seen, r, s.prevFilePos);
    if s.done {
    } else if r.field.ERG? {
      StepErg(s, r, digest);
    } else {
      LastAnchors(seen, r);
      StepAnchoredField(s, seen + [r], r, digest);
    }
  }

  lemma {:induction false} ScanAnchored(s0: ScanState, recs: seq<Rec>, digest: seq<byte> -> seq<byte>)
    requires Inv(s0, [], digest) && Anchored(s0, [], s0.prevFilePos) && Framed(recs)
    ensures var r := ScanFrom(s0, recs, digest);
            r.Ok? ==> Anchored(r.value, recs, r.value.prevFilePos)
    decreases |recs|
  {
    if |recs| > 0 {
      var init := recs[..|recs| - 1];
      assert Framed(init);
      ScanAnchored(s0, init, digest);
      ScanInv(s0, init, digest);
      var u := ScanFrom(s0, init, digest);
      if u.Ok? {
        StepAnchored(u.value, init, recs[|recs| - 1], digest);
        assert init + [recs[|recs| - 1]] == recs;
      }
    }
  }

  /**
   * Every resource of a scanned file begins at a BRS record of its key; a
   * completed one ends with the ERS record at `ersPos`, and its hashed bytes
   * run from its start, or from a BMM record, up to the end of that ERS.
   */
  lemma ResourcesAnchored(rn: seq<string>, mn: seq<string>, recs: seq<Rec>, digest: seq<byte> -> seq<byte>)
    requires Framed(recs)
    ensures var r := ScanFrom(Start(rn, mn), recs, digest);
            r.Ok? ==>
              forall k :: k in r.value.file.filePos ==>
                var e := r.value.file.filePos[k];
                && BrsAt(recs, e.start, k)
                && (e.hash.Some? ==>
                      && ErsAt(recs, e.ersPos, e.end)
                      && HashFrom(recs, e.start, e.end - |e.content|, e.end)
                      && Completed(e, Bytes(recs), digest))
  {
    var s0 := Start(rn, mn);
    StartInv(rn, mn, digest);
    assert Anchored(s0, [], s0.prevFilePos);
    ScanAnchored(s0, recs, digest);
    ScanInventory(rn, mn, recs, digest);
    var r := ScanFrom(s0, recs, digest);
    if r.Ok? {
      forall k | k in r.value.file.filePos
        ensures BrsAt(recs, r.value.file.filePos[k].start, k)
      {
        assert ResAnchored(recs, k, r.value.file.filePos[k]);
      }
    }
  }

  /** A completed, anchored resource with no BMM record inside it hashes the bytes from its BRS through its ERS. */
  lemma ContentOfAnchored(recs: seq<Rec>, e: Resource, digest: seq<byte> -> seq<byte>)
    requires HashFrom(recs, e.start, e.end - |e.content|, e.end) && Completed(e, Bytes(recs), digest)
    requires NoBmmWithin(recs, e.start, e.end)
    ensures e.start <= e.end <= |Bytes(recs)| && e.content == Bytes(recs)[e.start..e.end]
  {
  }

  /** One completed resource of a scanned file, anchored. */
  lemma ScannedResource(rn: seq<string>, mn: seq<string>, recs: seq<Rec>, digest: seq<byte> -> seq<byte>, k: ResourceKey)
    requires Framed(recs) && ScanFrom(Start(rn, mn), recs, digest).Ok?
    requires var fp := ScanFrom(Start(rn, mn), recs, digest).value.file.filePos;
             k in fp && fp[k].hash.Some?
    ensures var e := ScanFrom(Start(rn, mn), recs, digest).value.file.filePos[k];
            HashFrom(recs, e.start, e.end - |e.content|, e.end) && Completed(e, Bytes(recs), digest)
  {
    ResourcesAnchored(rn, mn, recs, digest);
  }

  /**
   * When no BMM record begins between the start of a completed resource and
   * its end, its hashed bytes are exactly the file's bytes from the beginning
   * of its BRS through the end of its ERS.
   */
  lemma ContentFromBrs(rn: seq<string>, mn: seq<string>, recs: seq<Rec>, digest: seq<byte> -> seq<byte>, k: ResourceKey)
    requires Framed(recs) && ScanFrom(Start(rn, mn), recs, digest).Ok?
    requires var fp := ScanFrom(Start(rn, mn), recs, digest).value.file.filePos;
             k in fp && fp[k].hash.Some? &&
             NoBmmWithin(recs, fp[k].start, fp[k].end)
    ensures var e := ScanFrom(Start(rn, mn), recs, digest).value.file.filePos[k];
            e.start <= e.end <= |Bytes(recs)| && e.content == Bytes(recs)[e.start..e.end]
  {
    ScannedResource(rn, mn, recs, digest, k);
    ContentOfAnchored(recs, ScanFrom(Start(rn, mn), recs, digest).value.file.filePos[k], digest);
  }
}
