/**
 * The resource scanner (AfpCombine.scanResources, one input file): a single
 * forward pass over the file's structured fields, written here as one
 * transition per field. The state holds the scanner's local variables, the
 * file record being filled, and the two global name registries.
 */
module Scanner {
  import opened Wrappers
  import opened Afp
  import opened Naming

  datatype ScanState = ScanState(
    file: InputFile,
    resourceNames: seq<string>,
    mmNames: seq<string>,
    prevFilePos: nat,
    buffer: Option<seq<byte>>,
    key: Option<ResourceKey>,
    resource: Option<ResourceKey>,   // the filePos entry that is the open resource
    mediumMap: Option<string>,       // the mediumMaps entry that is the open medium map (its name)
    processingFormdef: bool,
    isFirstFormdef: bool,
    done: bool)

  /** A form-map BRS seen while a resource is open leaves `key` null: key.getName() then throws at the ERS. */
  datatype ScanError = NoKeyAtErs

  /** The state before the first field of a file is read. */
  function Start(resourceNames: seq<string>, mmNames: seq<string>): ScanState
  {
    ScanState(EmptyFile, resourceNames, mmNames, 0, None, None, None, None, false, true, false)
  }

  /** The open resource and the open medium map are entries of the file's maps. */
  ghost predicate Open(s: ScanState)
  {
    && (s.resource.Some? ==> s.resource.value in s.file.filePos)
    && (s.mediumMap.Some? ==> s.mediumMap.value in s.file.mediumMaps)
  }

  // One function per block of the loop body that a tag triggers.

  /** A BRS: open a resource unless its type is form map. */
  function OnBrs(s: ScanState, f: Field): (t: ScanState)
    requires f.BRS? && Open(s)
    ensures Open(t)
    ensures t.prevFilePos == s.prevFilePos && t.done == s.done
  {
    var k := KeyOfBrs(f);
    if k.objType == FormMap then s.(key := None)
    else
      s.(buffer := Some([]), key := Some(k), resource := Some(k),
         file := s.file.(resources := s.file.resources + [k],
                         filePos := s.file.filePos[k := Resource(s.prevFilePos, 0, 0, [], None)]))
  }

  /** A BFM: start capturing the formdef, if it is the first one. */
  function OnBfm(s: ScanState): (t: ScanState)
    ensures t.prevFilePos == s.prevFilePos && t.done == s.done
  {
    if s.isFirstFormdef then s.(processingFormdef := true) else s
  }

  /** A BMM in the first formdef: open a medium map and a fresh buffer. */
  function OnBmm(s: ScanState, name: string): (t: ScanState)
    requires Open(s)
    ensures Open(t)
    ensures t.prevFilePos == s.prevFilePos && t.done == s.done
  {
    if s.isFirstFormdef then
      s.(mediumMap := Some(name), buffer := Some([]),
         file := s.file.(mmNames := s.file.mmNames + [name],
                         mediumMaps := s.file.mediumMaps[name := MediumMap(s.prevFilePos, 0, [], [], None)]))
    else s
  }

  /** Every field seen while the first formdef is being processed belongs to it. */
  function AddToFormdef(s: ScanState, f: Field): (t: ScanState)
    requires Open(s)
    ensures Open(t)
    ensures t.prevFilePos == s.prevFilePos && t.done == s.done
  {
    if s.processingFormdef then s.(file := s.file.(formdef := s.file.formdef + [f])) else s
  }

  /** Every field: added to the open medium map while in the formdef, and appended to the open buffer. */
  function AddToMapAndBuffer(s: ScanState, f: Field, raw: seq<byte>): (t: ScanState)
    requires Open(s)
    ensures Open(t)
    ensures t.prevFilePos == s.prevFilePos && t.done == s.done
  {
    var s1 :=
      if s.processingFormdef && s.mediumMap.Some? then
        var n := s.mediumMap.value;
        var mm := s.file.mediumMaps[n];
        s.(file := s.file.(mediumMaps := s.file.mediumMaps[n := mm.(sfs := mm.sfs + [f])]))
      else s;
    if s1.buffer.Some? then s1.(buffer := Some(s1.buffer.value + raw)) else s1
  }

  function Common(s: ScanState, f: Field, raw: seq<byte>): (t: ScanState)
    requires Open(s)
    ensures Open(t)
    ensures t.prevFilePos == s.prevFilePos && t.done == s.done
  {
    AddToMapAndBuffer(AddToFormdef(s, f), f, raw)
  }

  /** An EMM in the first formdef: close the medium map, hash it and register its name. */
  function OnEmm(s: ScanState, filepos: nat, digest: seq<byte> -> seq<byte>): (t: ScanState)
    requires Open(s)
    ensures Open(t)
    ensures t.prevFilePos == s.prevFilePos && t.done == s.done
  {
    if s.isFirstFormdef then
      var s1 :=
        if s.mediumMap.Some? then
          var n := s.mediumMap.value;
          var mm := s.file.mediumMaps[n].(end := filepos);
          if s.buffer.Some? then
            var b := s.buffer.value;
            s.(file := s.file.(mediumMaps := s.file.mediumMaps[n := mm.(hash := Some(Hex(digest(b))), content := b)]),
               mmNames := if n in s.mmNames then s.mmNames else s.mmNames + [n])
          else s.(file := s.file.(mediumMaps := s.file.mediumMaps[n := mm]))
        else s;
      s1.(mediumMap := None, buffer := None)
    else s
  }

  /** An ERS: close the open resource, hash it and register its name; without a buffer it ends the formdef resource. */
  function OnErs(s: ScanState, filepos: nat, digest: seq<byte> -> seq<byte>): (r: Result<ScanState, ScanError>)
    requires Open(s)
    ensures r.Ok? ==> Open(r.value)
    ensures r.Ok? ==> r.value.prevFilePos == s.prevFilePos && r.value.done == s.done
  {
    if s.buffer.None? then
      // the end of a formdef resource, which is not tracked
      Ok(s.(isFirstFormdef := false))
    else if s.resource.Some? then
      if s.key.None? then Err(NoKeyAtErs)
      else
        var b := s.buffer.value;
        var rk := s.resource.value;
        var res := s.file.filePos[rk].(ersPos := s.prevFilePos, end := filepos, hash := Some(Hex(digest(b))), content := b);
        var name := s.key.value.name;
        Ok(s.(file := s.file.(filePos := s.file.filePos[rk := res]),
              resourceNames := if name in s.resourceNames then s.resourceNames else s.resourceNames + [name],
              buffer := None, key := None, resource := None))
    else Ok(s.(buffer := None, key := None, resource := None))
  }

  /** The loop body without its last statement: an ERG records where the documents start and ends the scan. */
  function FieldStep(s: ScanState, f: Field, raw: seq<byte>, filepos: nat, digest: seq<byte> -> seq<byte>): (r: Result<ScanState, ScanError>)
    requires Open(s)
    ensures r.Ok? ==> Open(r.value)
    ensures r.Ok? ==> r.value.prevFilePos == s.prevFilePos && r.value.done == (s.done || f.ERG?)
  {
    if f.ERG? then Ok(s.(file := s.file.(documentStart := filepos), done := true))
    else if f.BRS? then Ok(Common(OnBrs(s, f), f, raw))
    else if f.BFM? then Ok(Common(OnBfm(s), f, raw))
    else if f.BMM? then Ok(AddToMapAndBuffer(OnBmm(AddToFormdef(s, f), f.mmName), f, raw))
    else if f.EMM? then Ok(OnEmm(Common(s, f, raw), filepos, digest))
    else if f.EFM? then Ok(Common(s, f, raw).(processingFormdef := false))
    else if f.ERS? then OnErs(Common(s, f, raw), filepos, digest)
    else Ok(Common(s, f, raw))
  }

  /**
   * What a BRS does. A form-map BRS only drops the key. Any other BRS lists
   * its key again each time it is begun, replaces the key's position entry by
   * a fresh one that starts at the BRS, and opens an empty buffer for it.
   */
  lemma BrsOpens(s: ScanState, f: Field)
    requires f.BRS? && Open(s)
    ensures var t, k := OnBrs(s, f), KeyOfBrs(f);
            k.objType == FormMap ==> t.file == s.file && t.key.None? && t.resource == s.resource && t.buffer == s.buffer
    ensures var t, k := OnBrs(s, f), KeyOfBrs(f);
            k.objType != FormMap ==>
              && t.file.resources == s.file.resources + [k]
              && t.file.filePos.Keys == s.file.filePos.Keys + {k}
              && t.file.filePos[k].start == s.prevFilePos && t.file.filePos[k].hash.None?
              && (forall k' :: k' in s.file.filePos && k' != k ==> t.file.filePos[k'] == s.file.filePos[k'])
              && t.key == t.resource == Some(k) && t.buffer == Some([])
  {
  }

  /**
   * What an ERS does. Without a buffer it ends the first formdef. With a
   * buffer and an open resource it fails when the key was dropped, and
   * otherwise completes the resource: its ERS offset, its end, its hashed
   * bytes and their hash, and registers its name. Either way the buffer, the
   * key and the resource are closed.
   */
  lemma ErsCloses(s: ScanState, filepos: nat, digest: seq<byte> -> seq<byte>)
    requires Open(s)
    ensures var r := OnErs(s, filepos, digest);
            r.Err? <==> s.buffer.Some? && s.resource.Some? && s.key.None?
    ensures var r := OnErs(s, filepos, digest);
            s.buffer.None? ==> r.Ok? && r.value.file == s.file && !r.value.isFirstFormdef
    ensures var r := OnErs(s, filepos, digest);
            r.Ok? && s.buffer.Some? ==> r.value.buffer.None? && r.value.resource.None? && r.value.key.None?
    ensures var r := OnErs(s, filepos, digest);
            r.Ok? && s.buffer.Some? && s.resource.Some? ==>
              var rk := s.resource.value;
              && r.value.file.filePos.Keys == s.file.filePos.Keys
              && var e := r.value.file.filePos[rk];
              && e.start == s.file.filePos[rk].start && e.ersPos == s.prevFilePos && e.end == filepos
              && e.content == s.buffer.value && e.hash == Some(Hex(digest(s.buffer.value)))
              && s.key.value.name in r.value.resourceNames
  {
  }

  /** A field's block fails exactly at an ERS that closes a resource whose key a form-map BRS dropped; an ERG records where the documents start. */
  lemma FieldStepOutcome(s: ScanState, f: Field, raw: seq<byte>, filepos: nat, digest: seq<byte> -> seq<byte>)
    requires Open(s)
    ensures var r := FieldStep(s, f, raw, filepos, digest);
            r.Err? <==> f.ERS? && s.buffer.Some? && s.resource.Some? && s.key.None?
    ensures f.ERG? ==> FieldStep(s, f, raw, filepos, digest) == Ok(s.(file := s.file.(documentStart := filepos), done := true))
  {
  }

  /** One iteration of the scanning loop, for the field `r`. */
  function Step(s: ScanState, r: Rec, digest: seq<byte> -> seq<byte>): (t: Result<ScanState, ScanError>)
    requires Open(s)
    ensures t.Ok? ==> Open(t.value)
  {
    if s.done then Ok(s)
    else
      var filepos := s.prevFilePos + |r.raw|;
      var s1 :- FieldStep(s, r.field, r.raw, filepos, digest);
      if r.field.ERG? then Ok(s1) else Ok(s1.(prevFilePos := filepos))
  }

  /** The state after the records `recs`, starting from `s0`. */
  function ScanFrom(s0: ScanState, recs: seq<Rec>, digest: seq<byte> -> seq<byte>): (r: Result<ScanState, ScanError>)
    requires Open(s0)
    ensures r.Ok? ==> Open(r.value)
    decreases |recs|
  {
    if |recs| == 0 then Ok(s0)
    else
      var s :- ScanFrom(s0, recs[..|recs| - 1], digest);
      Step(s, recs[|recs| - 1], digest)
  }

  /** The codec always reads at least one byte per structured field. */
  predicate Framed(recs: seq<Rec>)
  {
    forall i :: 0 <= i < |recs| ==> |recs[i].raw| > 0
  }

  /** Each field occupies at least one byte, so distinct record indices have distinct offsets. */
  lemma {:induction false} OffsetStrict(recs: seq<Rec>, i: nat, j: nat)
    requires Framed(recs) && i < j <= |recs|
    ensures Offset(recs, i) < Offset(recs, j)
    decreases j
  {
    assert recs[..j][..j - 1] == recs[..j - 1];
    assert Bytes(recs[..j]) == Bytes(recs[..j - 1]) + recs[j - 1].raw;
    if i < j - 1 {
      OffsetStrict(recs, i, j - 1);
    }
  }

  // ---------------------------------------------------------------------------
  // The scanner's inventory invariant
  // ---------------------------------------------------------------------------

  /** What a completed resource records about the bytes `bytes` of its file. */
  ghost predicate Completed(r: Resource, bytes: seq<byte>, digest: seq<byte> -> seq<byte>)
  {
    && r.start <= r.end - |r.content| <= r.ersPos < r.end <= |bytes|
    && r.content == bytes[r.end - |r.content|..r.end]
    && r.hash == Some(Hex(digest(r.content)))
  }

  /**
   * The inventory invariant, with the buffer filled up to offset `cur` of
   * `bytes` (`cur` is the previous offset, or the current one once the field's
   * raw bytes have been appended).
   */
  ghost predicate Core(s: ScanState, bytes: seq<byte>, cur: nat, digest: seq<byte> -> seq<byte>)
  {
    && Open(s)
    && Consistent(s.file)
    && s.prevFilePos <= cur <= |bytes|
    && (forall k :: k in s.file.filePos ==> k.objType != FormMap)
    && (forall k :: k in s.file.filePos ==> s.file.filePos[k].start <= s.prevFilePos)
    && (forall k :: k in s.file.filePos && s.file.filePos[k].hash.Some? ==>
          Completed(s.file.filePos[k], bytes, digest) && k.name in s.resourceNames)
    && (s.buffer.Some? ==>
          cur - s.prevFilePos <= |s.buffer.value| <= cur &&
          s.buffer.value == bytes[cur - |s.buffer.value|..cur])
    && (s.resource.Some? && s.buffer.Some? ==>
          s.file.filePos[s.resource.value].start <= cur - |s.buffer.value|)
    && (s.key.Some? ==> s.resource == s.key)
  }

  ghost predicate Inv(s: ScanState, seen: seq<Rec>, digest: seq<byte> -> seq<byte>)
  {
    && Core(s, Bytes(seen), s.prevFilePos, digest)
    && (!s.done ==> s.prevFilePos == |Bytes(seen)|)
  }

  lemma StartInv(rn: seq<string>, mn: seq<string>, digest: seq<byte> -> seq<byte>)
    ensures Inv(Start(rn, mn), [], digest)
  {
  }

  /** Extending the bytes read does not change any range already read. */
  lemma {:induction false} SliceStable(b: seq<byte>, x: seq<byte>, lo: nat, hi: nat)
    requires lo <= hi <= |b|
    ensures (b + x)[lo..hi] == b[lo..hi]
  {
  }

  lemma CoreExtend(s: ScanState, bytes: seq<byte>, x: seq<byte>, digest: seq<byte> -> seq<byte>)
    requires Core(s, bytes, s.prevFilePos, digest)
    ensures Core(s, bytes + x, s.prevFilePos, digest)
  {
    forall k | k in s.file.filePos && s.file.filePos[k].hash.Some?
      ensures Completed(s.file.filePos[k], bytes + x, digest)
    {
      var e := s.file.filePos[k];
      SliceStable(bytes, x, e.end - |e.content|, e.end);
    }
    if s.buffer.Some? {
      SliceStable(bytes, x, s.prevFilePos - |s.buffer.value|, s.prevFilePos);
    }
  }

  lemma CoreBrs(s: ScanState, f: Field, bytes: seq<byte>, digest: seq<byte> -> seq<byte>)
    requires f.BRS? && Core(s, bytes, s.prevFilePos, digest)
    ensures Core(OnBrs(s, f), bytes, s.prevFilePos, digest)
  {
    var k0 := KeyOfBrs(f);
    if k0.objType != FormMap {
      var e := Resource(s.prevFilePos, 0, 0, [], None);
      var file := s.file.(resources := s.file.resources + [k0], filePos := s.file.filePos[k0 := e]);
      var t := OnBrs(s, f);
      assert t == s.(buffer := Some([]), key := Some(k0), resource := Some(k0), file := file);
      ConsistentAddResource(s.file, k0, e);
      forall k | k in file.filePos
        ensures k.objType != FormMap && file.filePos[k].start <= s.prevFilePos
        ensures file.filePos[k].hash.Some? ==> Completed(file.filePos[k], bytes, digest) && k.name in s.resourceNames
      {
        if k != k0 {
          assert file.filePos[k] == s.file.filePos[k];
        }
      }
    }
  }

  lemma CoreBmm(s: ScanState, name: string, bytes: seq<byte>, digest: seq<byte> -> seq<byte>)
    requires Core(s, bytes, s.prevFilePos, digest)
    ensures Core(OnBmm(s, name), bytes, s.prevFilePos, digest)
  {
    if s.isFirstFormdef {
      ConsistentAddMap(s.file, name, MediumMap(s.prevFilePos, 0, [], [], None));
    }
  }

  lemma CoreAddToFormdef(s: ScanState, f: Field, bytes: seq<byte>, digest: seq<byte> -> seq<byte>)
    requires Core(s, bytes, s.prevFilePos, digest)
    ensures Core(AddToFormdef(s, f), bytes, s.prevFilePos, digest)
  {
    if s.processingFormdef {
      assert AddToFormdef(s, f) == s.(file := s.file.(formdef := s.file.formdef + [f]));
    }
  }

  lemma SliceSplit<T>(b: seq<T>, lo: nat, mid: nat, hi: nat)
    requires lo <= mid <= hi <= |b|
    ensures b[lo..hi] == b[lo..mid] + b[mid..hi]
  {
  }

  /** Appending the field's raw bytes to the open buffer. */
  lemma CoreAppendBuffer(s: ScanState, raw: seq<byte>, bytes: seq<byte>, digest: seq<byte> -> seq<byte>)
    requires Core(s, bytes, s.prevFilePos, digest) && s.buffer.Some?
    requires s.prevFilePos + |raw| <= |bytes|
    requires bytes[s.prevFilePos..s.prevFilePos + |raw|] == raw
    ensures Core(s.(buffer := Some(s.buffer.value + raw)), bytes, s.prevFilePos + |raw|, digest)
  {
    var cur := s.prevFilePos + |raw|;
    var b := s.buffer.value;
    SliceSplit(bytes, cur - |b + raw|, s.prevFilePos, cur);
  }

  lemma CoreAddToMapAndBuffer(s: ScanState, f: Field, raw: seq<byte>, bytes: seq<byte>, digest: seq<byte> -> seq<byte>)
    requires Core(s, bytes, s.prevFilePos, digest)
    requires s.prevFilePos + |raw| <= |bytes|
    requires bytes[s.prevFilePos..s.prevFilePos + |raw|] == raw
    ensures Core(AddToMapAndBuffer(s, f, raw), bytes, s.prevFilePos + |raw|, digest)
  {
    var s1 := s;
    if s.processingFormdef && s.mediumMap.Some? {
      var n := s.mediumMap.value;
      var mm := s.file.mediumMaps[n];
      ConsistentSetMap(s.file, n, mm.(sfs := mm.sfs + [f]));
      s1 := s.(file := s.file.(mediumMaps := s.file.mediumMaps[n := mm.(sfs := mm.sfs + [f])]));
    }
    assert Core(s1, bytes, s.prevFilePos, digest);
    if s.buffer.Some? {
      CoreAppendBuffer(s1, raw, bytes, digest);
      assert AddToMapAndBuffer(s, f, raw) == s1.(buffer := Some(s1.buffer.value + raw));
    } else {
      assert AddToMapAndBuffer(s, f, raw) == s1;
    }
  }

  lemma CoreCommon(s: ScanState, f: Field, raw: seq<byte>, bytes: seq<byte>, digest: seq<byte> -> seq<byte>)
    requires Core(s, bytes, s.prevFilePos, digest)
    requires s.prevFilePos + |raw| <= |bytes|
    requires bytes[s.prevFilePos..s.prevFilePos + |raw|] == raw
    ensures Core(Common(s, f, raw), bytes, s.prevFilePos + |raw|, digest)
  {
    CoreAddToFormdef(s, f, bytes, digest);
    CoreAddToMapAndBuffer(AddToFormdef(s, f), f, raw, bytes, digest);
  }

  lemma CoreEmm(s: ScanState, cur: nat, bytes: seq<byte>, digest: seq<byte> -> seq<byte>)
    requires Core(s, bytes, cur, digest)
    ensures Core(OnEmm(s, cur, digest), bytes, cur, digest)
  {
    if s.isFirstFormdef && s.mediumMap.Some? {
      var n := s.mediumMap.value;
      var mm := s.file.mediumMaps[n].(end := cur);
      if s.buffer.Some? {
        var b := s.buffer.value;
        ConsistentSetMap(s.file, n, mm.(hash := Some(Hex(digest(b))), content := b));
      } else {
        ConsistentSetMap(s.file, n, mm);
      }
    }
  }

  lemma CoreErs(s: ScanState, cur: nat, bytes: seq<byte>, digest: seq<byte> -> seq<byte>)
    requires Core(s, bytes, cur, digest)
    requires cur > s.prevFilePos
    ensures OnErs(s, cur, digest).Ok? ==> Core(OnErs(s, cur, digest).value, bytes, cur, digest)
  {
    if s.buffer.None? {
      assert OnErs(s, cur, digest) == Ok(s.(isFirstFormdef := false));
    } else if s.resource.None? {
      assert OnErs(s, cur, digest) == Ok(s.(buffer := None, key := None, resource := None));
    } else if s.key.Some? {
      var rk := s.resource.value;
      var b := s.buffer.value;
      var res := s.file.filePos[rk].(ersPos := s.prevFilePos, end := cur, hash := Some(Hex(digest(b))), content := b);
      var name := s.key.value.name;
      var names := if name in s.resourceNames then s.resourceNames else s.resourceNames + [name];
      var file := s.file.(filePos := s.file.filePos[rk := res]);
      assert OnErs(s, cur, digest) == Ok(s.(file := file, resourceNames := names, buffer := None, key := None, resource := None));
      ConsistentSetResource(s.file, rk, res);
      assert Completed(res, bytes, digest);
      forall k | k in file.filePos
        ensures k.objType != FormMap && file.filePos[k].start <= s.prevFilePos
        ensures file.filePos[k].hash.Some? ==> Completed(file.filePos[k], bytes, digest) && k.name in names
      {
        if k != rk {
          assert file.filePos[k] == s.file.filePos[k];
        }
      }
    }
  }

  /** Moving the previous offset up to the current one keeps the invariant. */
  lemma CoreAdvance(s: ScanState, cur: nat, bytes: seq<byte>, digest: seq<byte> -> seq<byte>)
    requires Core(s, bytes, cur, digest)
    ensures Core(s.(prevFilePos := cur), bytes, cur, digest)
  {
  }

  /** What the field's block computes, tag by tag. */
  lemma FieldStepCases(s: ScanState, f: Field, raw: seq<byte>, cur: nat, digest: seq<byte> -> seq<byte>)
    requires Open(s)
    ensures f.BRS? ==> FieldStep(s, f, raw, cur, digest) == Ok(Common(OnBrs(s, f), f, raw))
    ensures f.BFM? ==> FieldStep(s, f, raw, cur, digest) == Ok(Common(OnBfm(s), f, raw))
    ensures f.BMM? ==> FieldStep(s, f, raw, cur, digest) == Ok(AddToMapAndBuffer(OnBmm(AddToFormdef(s, f), f.mmName), f, raw))
    ensures f.EMM? ==> FieldStep(s, f, raw, cur, digest) == Ok(OnEmm(Common(s, f, raw), cur, digest))
    ensures f.EFM? ==> FieldStep(s, f, raw, cur, digest) == Ok(Common(s, f, raw).(processingFormdef := false))
    ensures f.ERS? ==> FieldStep(s, f, raw, cur, digest) == OnErs(Common(s, f, raw), cur, digest)
    ensures !(f.ERG? || f.BRS? || f.BFM? || f.BMM? || f.EMM? || f.EFM? || f.ERS?) ==>
              FieldStep(s, f, raw, cur, digest) == Ok(Common(s, f, raw))
  {
  }

  /** The invariant is a property of the state alone. */
  lemma CoreSame(s: ScanState, t: ScanState, bytes: seq<byte>, cur: nat, digest: seq<byte> -> seq<byte>)
    requires s == t && Core(s, bytes, cur, digest)
    ensures Core(t, bytes, cur, digest)
  {
  }

  lemma FieldStepCoreBrs(s: ScanState, f: Field, raw: seq<byte>, cur: nat, bytes: seq<byte>, digest: seq<byte> -> seq<byte>)
    requires Core(s, bytes, s.prevFilePos, digest)
    requires cur == s.prevFilePos + |raw| <= |bytes|
    requires bytes[s.prevFilePos..cur] == raw
    requires f.BRS?
    ensures FieldStep(s, f, raw, cur, digest).Ok? ==> Core(FieldStep(s, f, raw, cur, digest).value, bytes, cur, digest)
  {
    var t := OnBrs(s, f);
    assert FieldStep(s, f, raw, cur, digest) == Ok(Common(t, f, raw));
    CoreBrs(s, f, bytes, digest);
    CoreCommon(t, f, raw, bytes, digest);
    assert t.prevFilePos + |raw| == cur;
    CoreSame(Common(t, f, raw), FieldStep(s, f, raw, cur, digest).value, bytes, cur, digest);
  }

  lemma FieldStepCoreBfm(s: ScanState, f: Field, raw: seq<byte>, cur: nat, bytes: seq<byte>, digest: seq<byte> -> seq<byte>)
    requires Core(s, bytes, s.prevFilePos, digest)
    requires cur == s.prevFilePos + |raw| <= |bytes|
    requires bytes[s.prevFilePos..cur] == raw
    requires f.BFM?
    ensures FieldStep(s, f, raw, cur, digest).Ok? ==> Core(FieldStep(s, f, raw, cur, digest).value, bytes, cur, digest)
  {
    FieldStepCases(s, f, raw, cur, digest);
    CoreCommon(OnBfm(s), f, raw, bytes, digest);
  }

  lemma FieldStepCoreBmm(s: ScanState, f: Field, raw: seq<byte>, cur: nat, bytes: seq<byte>, digest: seq<byte> -> seq<byte>)
    requires Core(s, bytes, s.prevFilePos, digest)
    requires cur == s.prevFilePos + |raw| <= |bytes|
    requires bytes[s.prevFilePos..cur] == raw
    requires f.BMM?
    ensures FieldStep(s, f, raw, cur, digest).Ok? ==> Core(FieldStep(s, f, raw, cur, digest).value, bytes, cur, digest)
  {
    var s1 := AddToFormdef(s, f);
    assert FieldStep(s, f, raw, cur, digest) == Ok(AddToMapAndBuffer(OnBmm(s1, f.mmName), f, raw));
    CoreAddToFormdef(s, f, bytes, digest);
    CoreBmm(s1, f.mmName, bytes, digest);
    CoreAddToMapAndBuffer(OnBmm(s1, f.mmName), f, raw, bytes, digest);
  }

  lemma FieldStepCoreEmm(s: ScanState, f: Field, raw: seq<byte>, cur: nat, bytes: seq<byte>, digest: seq<byte> -> seq<byte>)
    requires Core(s, bytes, s.prevFilePos, digest)
    requires cur == s.prevFilePos + |raw| <= |bytes|
    requires bytes[s.prevFilePos..cur] == raw
    requires f.EMM?
    ensures FieldStep(s, f, raw, cur, digest).Ok? ==> Core(FieldStep(s, f, raw, cur, digest).value, bytes, cur, digest)
  {
    FieldStepCases(s, f, raw, cur, digest);
    CoreCommon(s, f, raw, bytes, digest);
    CoreEmm(Common(s, f, raw), cur, bytes, digest);
  }

  lemma FieldStepCoreEfm(s: ScanState, f: Field, raw: seq<byte>, cur: nat, bytes: seq<byte>, digest: seq<byte> -> seq<byte>)
    requires Core(s, bytes, s.prevFilePos, digest)
    requires cur == s.prevFilePos + |raw| <= |bytes|
    requires bytes[s.prevFilePos..cur] == raw
    requires f.EFM?
    ensures FieldStep(s, f, raw, cur, digest).Ok? ==> Core(FieldStep(s, f, raw, cur, digest).value, bytes, cur, digest)
  {
    FieldStepCases(s, f, raw, cur, digest);
    CoreCommon(s, f, raw, bytes, digest);
  }

  lemma FieldStepCoreErs(s: ScanState, f: Field, raw: seq<byte>, cur: nat, bytes: seq<byte>, digest: seq<byte> -> seq<byte>)
    requires Core(s, bytes, s.prevFilePos, digest)
    requires cur == s.prevFilePos + |raw| <= |bytes|
    requires bytes[s.prevFilePos..cur] == raw
    requires f.ERS? && |raw| > 0
    ensures FieldStep(s, f, raw, cur, digest).Ok? ==> Core(FieldStep(s, f, raw, cur, digest).value, bytes, cur, digest)
  {
    FieldStepCases(s, f, raw, cur, digest);
    CoreCommon(s, f, raw, bytes, digest);
    CoreErs(Common(s, f, raw), cur, bytes, digest);
  }

  lemma FieldStepCorePlain(s: ScanState, f: Field, raw: seq<byte>, cur: nat, bytes: seq<byte>, digest: seq<byte> -> seq<byte>)
    requires Core(s, bytes, s.prevFilePos, digest)
    requires cur == s.prevFilePos + |raw| <= |bytes|
    requires bytes[s.prevFilePos..cur] == raw
    requires !(f.ERG? || f.BRS? || f.BFM? || f.BMM? || f.EMM? || f.EFM? || f.ERS?)
    ensures FieldStep(s, f, raw, cur, digest).Ok? ==> Core(FieldStep(s, f, raw, cur, digest).value, bytes, cur, digest)
  {
    FieldStepCases(s, f, raw, cur, digest);
    CoreCommon(s, f, raw, bytes, digest);
  }

  lemma FieldStepCore(s: ScanState, f: Field, raw: seq<byte>, cur: nat, bytes: seq<byte>, digest: seq<byte> -> seq<byte>)
    requires Core(s, bytes, s.prevFilePos, digest)
    requires cur == s.prevFilePos + |raw| <= |bytes|
    requires bytes[s.prevFilePos..cur] == raw
    requires !f.ERG? && |raw| > 0
    ensures FieldStep(s, f, raw, cur, digest).Ok? ==> Core(FieldStep(s, f, raw, cur, digest).value, bytes, cur, digest)
  {
    if f.BRS? {
      FieldStepCoreBrs(s, f, raw, cur, bytes, digest);
    } else if f.BFM? {
      FieldStepCoreBfm(s, f, raw, cur, bytes, digest);
    } else if f.BMM? {
      FieldStepCoreBmm(s, f, raw, cur, bytes, digest);
    } else if f.EMM? {
      FieldStepCoreEmm(s, f, raw, cur, bytes, digest);
    } else if f.EFM? {
      FieldStepCoreEfm(s, f, raw, cur, bytes, digest);
    } else if f.ERS? {
      FieldStepCoreErs(s, f, raw, cur, bytes, digest);
    } else {
      FieldStepCorePlain(s, f, raw, cur, bytes, digest);
    }
  }

  /** Appending a record appends its raw bytes. */
  lemma BytesSnoc(seen: seq<Rec>, r: Rec)
    ensures Bytes(seen + [r]) == Bytes(seen) + r.raw
  {
    assert (seen + [r])[..|seen + [r]| - 1] == seen;
  }

  /** The invariant in terms of the bytes read so far, rather than the records. */
  ghost predicate ByteInv(s: ScanState, bytes: seq<byte>, digest: seq<byte> -> seq<byte>)
  {
    Core(s, bytes, s.prevFilePos, digest) && (!s.done ==> s.prevFilePos == |bytes|)
  }

  lemma StepDoneInv(s: ScanState, bytes: seq<byte>, r: Rec, digest: seq<byte> -> seq<byte>)
    requires ByteInv(s, bytes, digest) && s.done
    ensures Step(s, r, digest) == Ok(s) && ByteInv(s, bytes + r.raw, digest)
  {
    CoreExtend(s, bytes, r.raw, digest);
  }

  lemma StepErgInv(s: ScanState, bytes: seq<byte>, r: Rec, digest: seq<byte> -> seq<byte>)
    requires ByteInv(s, bytes, digest) && !s.done && r.field.ERG?
    ensures Step(s, r, digest).Ok? ==> ByteInv(Step(s, r, digest).value, bytes + r.raw, digest)
  {
    CoreExtend(s, bytes, r.raw, digest);
    var t := Step(s, r, digest).value;
    assert t == s.(done := true, file := s.file.(documentStart := s.prevFilePos + |r.raw|));
  }

  lemma SliceAppend(b: seq<byte>, x: seq<byte>)
    ensures (b + x)[|b|..|b| + |x|] == x
  {
  }

  /** Before the end, a step is the field's block, followed (except at the ERG) by advancing the previous offset. */
  lemma StepUnfold(s: ScanState, r: Rec, digest: seq<byte> -> seq<byte>)
    requires Open(s) && !s.done
    ensures var t := FieldStep(s, r.field, r.raw, s.prevFilePos + |r.raw|, digest);
            Step(s, r, digest) == if t.Err? || r.field.ERG? then t else Ok(t.value.(prevFilePos := s.prevFilePos + |r.raw|))
  {
  }

  /** At the ERG, a step records where the documents start and ends the scan. */
  lemma StepErg(s: ScanState, r: Rec, digest: seq<byte> -> seq<byte>)
    requires Open(s) && !s.done && r.field.ERG?
    ensures Step(s, r, digest) == Ok(s.(file := s.file.(documentStart := s.prevFilePos + |r.raw|), done := true))
  {
  }

  lemma StepFieldInv(s: ScanState, bytes: seq<byte>, r: Rec, digest: seq<byte> -> seq<byte>)
    requires ByteInv(s, bytes, digest) && !s.done && !r.field.ERG? && |r.raw| > 0
    ensures Step(s, r, digest).Ok? ==> ByteInv(Step(s, r, digest).value, bytes + r.raw, digest)
  {
    var cur := s.prevFilePos + |r.raw|;
    StepUnfold(s, r, digest);
    CoreExtend(s, bytes, r.raw, digest);
    SliceAppend(bytes, r.raw);
    FieldStepCore(s, r.field, r.raw, cur, bytes + r.raw, digest);
    var t := FieldStep(s, r.field, r.raw, cur, digest);
    if t.Ok? {
      CoreAdvance(t.value, cur, bytes + r.raw, digest);
    }
  }

  lemma StepInv(s: ScanState, seen: seq<Rec>, r: Rec, digest: seq<byte> -> seq<byte>)
    requires Inv(s, seen, digest)
    requires |r.raw| > 0
    ensures Step(s, r, digest).Ok? ==> Inv(Step(s, r, digest).value, seen + [r], digest)
  {
    BytesSnoc(seen, r);
    assert ByteInv(s, Bytes(seen), digest);
    if s.done {
      StepDoneInv(s, Bytes(seen), r, digest);
    } else if r.field.ERG? {
      StepErgInv(s, Bytes(seen), r, digest);
    } else {
      StepFieldInv(s, Bytes(seen), r, digest);
    }
  }

  /** The invariant holds after every prefix of a framed file. */
  lemma {:induction false} ScanInv(s0: ScanState, recs: seq<Rec>, digest: seq<byte> -> seq<byte>)
    requires Inv(s0, [], digest)
    requires Framed(recs)
    ensures ScanFrom(s0, recs, digest).Ok? ==> Inv(ScanFrom(s0, recs, digest).value, recs, digest)
    decreases |recs|
  {
    if |recs| > 0 {
      var init := recs[..|recs| - 1];
      assert Framed(init);
      ScanInv(s0, init, digest);
      if ScanFrom(s0, init, digest).Ok? {
        StepInv(ScanFrom(s0, init, digest).value, init, recs[|recs| - 1], digest);
        assert init + [recs[|recs| - 1]] == recs;
      }
    }
  }

  // ---------------------------------------------------------------------------
  // How the scan ends, and what only the first formdef may change.

  /** Scanning `a` then `b` is scanning `a + b`; an error in `a` is an error of the whole. */
  lemma {:induction false} ScanFromConcat(s0: ScanState, a: seq<Rec>, b: seq<Rec>, digest: seq<byte> -> seq<byte>)
    requires Open(s0)
    ensures ScanFrom(s0, a, digest).Err? ==> ScanFrom(s0, a + b, digest).Err?
    ensures ScanFrom(s0, a, digest).Ok? ==> ScanFrom(s0, a + b, digest) == ScanFrom(ScanFrom(s0, a, digest).value, b, digest)
    decreases |b|
  {
    if |b| == 0 {
      assert a + b == a;
    } else {
      var b' := b[..|b| - 1];
      assert (a + b)[..|a + b| - 1] == a + b';
      assert (a + b)[|a + b| - 1] == b[|b| - 1];
      ScanFromConcat(s0, a, b', digest);
    }
  }

  /** One more record extends the scan by one step. */
  lemma ScanFromNext(s0: ScanState, recs: seq<Rec>, j: nat, digest: seq<byte> -> seq<byte>)
    requires Open(s0) && j < |recs| && ScanFrom(s0, recs[..j], digest).Ok?
    ensures ScanFrom(s0, recs[..j + 1], digest) == Step(ScanFrom(s0, recs[..j], digest).value, recs[j], digest)
  {
    assert recs[..j + 1][..j] == recs[..j];
  }

  /** An error in a prefix is the error of the whole scan. */
  lemma {:induction false} ScanFromPrefixErr(s0: ScanState, recs: seq<Rec>, j: nat, digest: seq<byte> -> seq<byte>)
    requires Open(s0) && j <= |recs| && ScanFrom(s0, recs[..j], digest).Err?
    ensures ScanFrom(s0, recs, digest) == ScanFrom(s0, recs[..j], digest)
    decreases |recs| - j
  {
    if j < |recs| {
      assert recs[..j + 1][..j] == recs[..j];
      ScanFromPrefixErr(s0, recs, j + 1, digest);
    } else {
      assert recs[..j] == recs;
    }
  }

  /** After the ERG nothing more is read. */
  lemma {:induction false} DoneIsFinal(s: ScanState, recs: seq<Rec>, digest: seq<byte> -> seq<byte>)
    requires Open(s) && s.done
    ensures ScanFrom(s, recs, digest) == Ok(s)
    decreases |recs|
  {
    if |recs| > 0 {
      DoneIsFinal(s, recs[..|recs| - 1], digest);
    }
  }

  /** Without an ERG the scan does not stop. */
  lemma {:induction false} NoErgNotDone(s0: ScanState, recs: seq<Rec>, digest: seq<byte> -> seq<byte>)
    requires Open(s0) && !s0.done
    requires forall j :: 0 <= j < |recs| ==> !recs[j].field.ERG?
    ensures ScanFrom(s0, recs, digest).Ok? ==> !ScanFrom(s0, recs, digest).value.done
    decreases |recs|
  {
    if |recs| > 0 {
      NoErgNotDone(s0, recs[..|recs| - 1], digest);
    }
  }

  /** Before the first ERG the scan has not stopped, and its previous offset is where the next record begins. */
  lemma BeforeErg(rn: seq<string>, mn: seq<string>, recs: seq<Rec>, i: nat, digest: seq<byte> -> seq<byte>)
    requires Framed(recs) && i <= |recs|
    requires forall j :: 0 <= j < i ==> !recs[j].field.ERG?
    ensures var r := ScanFrom(Start(rn, mn), recs[..i], digest);
            r.Ok? ==> !r.value.done && r.value.prevFilePos == Offset(recs, i)
  {
    var s0 := Start(rn, mn);
    StartInv(rn, mn, digest);
    assert Framed(recs[..i]);
    ScanInv(s0, recs[..i], digest);
    NoErgNotDone(s0, recs[..i], digest);
  }

  /** An ERG read before the scan has stopped ends it. */
  lemma ScanStopsAt(s0: ScanState, recs: seq<Rec>, i: nat, digest: seq<byte> -> seq<byte>)
    requires Open(s0) && i < |recs| && recs[i].field.ERG?
    requires ScanFrom(s0, recs[..i], digest).Ok? && !ScanFrom(s0, recs[..i], digest).value.done
    ensures var t := ScanFrom(s0, recs[..i + 1], digest);
            t.Ok? && t.value.done &&
            t.value.file.documentStart == ScanFrom(s0, recs[..i], digest).value.prevFilePos + |recs[i].raw|
  {
    var s := ScanFrom(s0, recs[..i], digest).value;
    ScanFromNext(s0, recs, i, digest);
    StepErg(s, recs[i], digest);
  }

  /** Once a prefix has stopped the scan, the rest of the records do not count. */
  lemma DoneAfterPrefix(s0: ScanState, recs: seq<Rec>, k: nat, digest: seq<byte> -> seq<byte>)
    requires Open(s0) && k <= |recs|
    requires ScanFrom(s0, recs[..k], digest).Ok? && ScanFrom(s0, recs[..k], digest).value.done
    ensures ScanFrom(s0, recs, digest) == ScanFrom(s0, recs[..k], digest)
  {
    SplitAt(recs, k);
    ScanFromConcat(s0, recs[..k], recs[k..], digest);
    DoneIsFinal(ScanFrom(s0, recs[..k], digest).value, recs[k..], digest);
  }

  /**
   * The first ERG ends the scan: the documents start right after it, and the
   * fields after it do not change the outcome.
   */
  lemma FirstErgEndsScan(rn: seq<string>, mn: seq<string>, recs: seq<Rec>, i: nat, digest: seq<byte> -> seq<byte>)
    requires Framed(recs)
    requires i < |recs| && recs[i].field.ERG?
    requires forall j :: 0 <= j < i ==> !recs[j].field.ERG?
    ensures var r := ScanFrom(Start(rn, mn), recs, digest);
            r.Ok? ==> r == ScanFrom(Start(rn, mn), recs[..i + 1], digest) && r.value.done &&
                      r.value.file.documentStart == Offset(recs, i + 1)
  {
    var s0 := Start(rn, mn);
    BeforeErg(rn, mn, recs, i, digest);
    if ScanFrom(s0, recs[..i], digest).Ok? {
      ScanStopsAt(s0, recs, i, digest);
      DoneAfterPrefix(s0, recs, i + 1, digest);
      OffsetNext(recs, i);
    } else {
      ScanFromPrefixErr(s0, recs, i, digest);
    }
  }

  /** The part of the state the first formdef fills: once it is over, a field leaves it alone. */
  ghost predicate FormdefOver(s: ScanState)
  {
    !s.isFirstFormdef && !s.processingFormdef
  }

  /** Nothing of what the first formdef filled differs between `s` and `t`. */
  ghost predicate KeepsFormdef(s: ScanState, t: ScanState)
  {
    && FormdefOver(t)
    && t.file.formdef == s.file.formdef
    && t.file.mmNames == s.file.mmNames
    && t.file.mediumMaps == s.file.mediumMaps
    && t.mmNames == s.mmNames
  }

  lemma CommonAfterFormdef(s: ScanState, f: Field, raw: seq<byte>)
    requires Open(s) && FormdefOver(s)
    ensures KeepsFormdef(s, Common(s, f, raw))
  {
  }

  lemma FieldStepAfterFormdef(s: ScanState, f: Field, raw: seq<byte>, cur: nat, digest: seq<byte> -> seq<byte>)
    requires Open(s) && FormdefOver(s) && !f.ERG?
    ensures var t := FieldStep(s, f, raw, cur, digest);
            t.Ok? ==> KeepsFormdef(s, t.value)
  {
    FieldStepCases(s, f, raw, cur, digest);
    if f.BRS? {
      assert KeepsFormdef(s, OnBrs(s, f));
      CommonAfterFormdef(OnBrs(s, f), f, raw);
    } else if f.BFM? {
      assert OnBfm(s) == s;
      CommonAfterFormdef(s, f, raw);
    } else if f.BMM? {
      assert AddToFormdef(s, f) == s;
      assert OnBmm(s, f.mmName) == s;
      CommonAfterFormdef(s, f, raw);
    } else {
      CommonAfterFormdef(s, f, raw);
    }
  }

  lemma StepAfterFormdef(s: ScanState, r: Rec, digest: seq<byte> -> seq<byte>)
    requires Open(s) && FormdefOver(s)
    ensures var t := Step(s, r, digest);
            t.Ok? ==> FormdefOver(t.value) && t.value.file.formdef == s.file.formdef &&
                      t.value.file.mmNames == s.file.mmNames && t.value.file.mediumMaps == s.file.mediumMaps &&
                      t.value.mmNames == s.mmNames
  {
    if !s.done {
      if r.field.ERG? {
        StepErg(s, r, digest);
      } else {
        var fp := s.prevFilePos + |r.raw|;
        var t := FieldStep(s, r.field, r.raw, fp, digest);
        StepUnfold(s, r, digest);
        FieldStepAfterFormdef(s, r.field, r.raw, fp, digest);
        if t.Ok? {
          assert KeepsFormdef(s, t.value);
          assert KeepsFormdef(s, t.value.(prevFilePos := fp));
        }
      }
    }
  }

  /** Only the first formdef of a file is captured, and only its medium maps are registered. */
  lemma {:induction false} ScanAfterFormdef(s: ScanState, recs: seq<Rec>, digest: seq<byte> -> seq<byte>)
    requires Open(s) && FormdefOver(s)
    ensures var t := ScanFrom(s, recs, digest);
            t.Ok? ==> FormdefOver(t.value) && t.value.file.formdef == s.file.formdef &&
                      t.value.file.mmNames == s.file.mmNames && t.value.file.mediumMaps == s.file.mediumMaps &&
                      t.value.mmNames == s.mmNames
    decreases |recs|
  {
    if |recs| > 0 {
      ScanAfterFormdef(s, recs[..|recs| - 1], digest);
      var u := ScanFrom(s, recs[..|recs| - 1], digest);
      if u.Ok? {
        StepAfterFormdef(u.value, recs[|recs| - 1], digest);
      }
    }
  }

  /** What the scan of a whole file guarantees about the inventory it builds. */
  lemma ScanInventory(rn: seq<string>, mn: seq<string>, recs: seq<Rec>, digest: seq<byte> -> seq<byte>)
    requires Framed(recs)
    ensures var r := ScanFrom(Start(rn, mn), recs, digest);
            r.Ok? ==>
              var f := r.value.file;
              && Consistent(f)
              && (forall k :: k in f.filePos ==> k.objType != FormMap)
              && (forall k :: k in f.filePos && f.filePos[k].hash.Some? ==>
                    Completed(f.filePos[k], Bytes(recs), digest) && k.name in r.value.resourceNames)
  {
    StartInv(rn, mn, digest);
    ScanInv(Start(rn, mn), recs, digest);
  }

  // ---------------------------------------------------------------------------
  // What holds of every scan, whatever the bytes

  /** The scan keeps the file's lists and maps in step and never renames anything. */
  ghost predicate Shape(s: ScanState)
  {
    Open(s) && Consistent(s.file) && s.file.renamings == map[] && s.file.renameIMM == map[]
  }

  lemma ShapeBrs(s: ScanState, f: Field)
    requires Shape(s) && f.BRS?
    ensures Shape(OnBrs(s, f))
  {
    if KeyOfBrs(f).objType != FormMap {
      ConsistentAddResource(s.file, KeyOfBrs(f), Resource(s.prevFilePos, 0, 0, [], None));
    }
  }

  lemma ShapeBmm(s: ScanState, name: string)
    requires Shape(s)
    ensures Shape(OnBmm(s, name))
  {
    if s.isFirstFormdef {
      ConsistentAddMap(s.file, name, MediumMap(s.prevFilePos, 0, [], [], None));
    }
  }

  lemma ShapeAddToFormdef(s: ScanState, f: Field)
    requires Shape(s)
    ensures Shape(AddToFormdef(s, f))
  {
    if s.processingFormdef {
      assert AddToFormdef(s, f).file == s.file.(formdef := s.file.formdef + [f]);
    }
  }

  lemma ShapeAddToMapAndBuffer(s: ScanState, f: Field, raw: seq<byte>)
    requires Shape(s)
    ensures Shape(AddToMapAndBuffer(s, f, raw))
  {
    if s.processingFormdef && s.mediumMap.Some? {
      var n := s.mediumMap.value;
      var mm := s.file.mediumMaps[n];
      ConsistentSetMap(s.file, n, mm.(sfs := mm.sfs + [f]));
    }
  }

  lemma ShapeCommon(s: ScanState, f: Field, raw: seq<byte>)
    requires Shape(s)
    ensures Shape(AddToFormdef(s, f)) && Shape(Common(s, f, raw))
  {
    ShapeAddToFormdef(s, f);
    ShapeAddToMapAndBuffer(AddToFormdef(s, f), f, raw);
  }

  lemma ShapeEmm(s: ScanState, filepos: nat, digest: seq<byte> -> seq<byte>)
    requires Shape(s)
    ensures Shape(OnEmm(s, filepos, digest))
  {
    if s.isFirstFormdef && s.mediumMap.Some? {
      var n := s.mediumMap.value;
      var mm := s.file.mediumMaps[n].(end := filepos);
      if s.buffer.Some? {
        var b := s.buffer.value;
        ConsistentSetMap(s.file, n, mm.(hash := Some(Hex(digest(b))), content := b));
      } else {
        ConsistentSetMap(s.file, n, mm);
      }
    }
  }

  lemma ShapeErs(s: ScanState, filepos: nat, digest: seq<byte> -> seq<byte>)
    requires Shape(s)
    ensures OnErs(s, filepos, digest).Ok? ==> Shape(OnErs(s, filepos, digest).value)
  {
    if s.buffer.Some? && s.resource.Some? && s.key.Some? {
      var b := s.buffer.value;
      var rk := s.resource.value;
      ConsistentSetResource(s.file, rk, s.file.filePos[rk].(ersPos := s.prevFilePos, end := filepos, hash := Some(Hex(digest(b))), content := b));
    }
  }

  lemma FieldStepShape(s: ScanState, f: Field, raw: seq<byte>, cur: nat, digest: seq<byte> -> seq<byte>)
    requires Shape(s)
    ensures FieldStep(s, f, raw, cur, digest).Ok? ==> Shape(FieldStep(s, f, raw, cur, digest).value)
  {
    if f.ERG? {
    } else if f.BRS? {
      ShapeBrs(s, f);
      ShapeCommon(OnBrs(s, f), f, raw);
    } else if f.BFM? {
      ShapeCommon(OnBfm(s), f, raw);
    } else if f.BMM? {
      ShapeCommon(s, f, raw);
      ShapeBmm(AddToFormdef(s, f), f.mmName);
      ShapeAddToMapAndBuffer(OnBmm(AddToFormdef(s, f), f.mmName), f, raw);
    } else if f.EMM? {
      ShapeCommon(s, f, raw);
      ShapeEmm(Common(s, f, raw), cur, digest);
    } else if f.ERS? {
      ShapeCommon(s, f, raw);
      ShapeErs(Common(s, f, raw), cur, digest);
    } else {
      ShapeCommon(s, f, raw);
    }
  }

  lemma ShapeAdvance(s: ScanState, p: nat)
    requires Shape(s)
    ensures Shape(s.(prevFilePos := p))
  {
  }

  lemma StepShapeField(s: ScanState, r: Rec, digest: seq<byte> -> seq<byte>)
    requires Shape(s) && !s.done && !r.field.ERG?
    ensures Step(s, r, digest).Ok? ==> Shape(Step(s, r, digest).value)
  {
    var fp := s.prevFilePos + |r.raw|;
    var t := FieldStep(s, r.field, r.raw, fp, digest);
    StepUnfold(s, r, digest);
    assert Step(s, r, digest) == if t.Err? then t else Ok(t.value.(prevFilePos := fp));
    if t.Ok? {
      FieldStepShape(s, r.field, r.raw, fp, digest);
      assert Shape(t.value);
      ShapeAdvance(t.value, fp);
      assert Shape(t.value.(prevFilePos := fp));
    }
  }

  lemma StepShape(s: ScanState, r: Rec, digest: seq<byte> -> seq<byte>)
    requires Shape(s)
    ensures Step(s, r, digest).Ok? ==> Shape(Step(s, r, digest).value)
  {
    if s.done {
    } else if r.field.ERG? {
      StepErg(s, r, digest);
    } else {
      StepShapeField(s, r, digest);
    }
  }

  lemma {:induction false} ScanShape(s: ScanState, recs: seq<Rec>, digest: seq<byte> -> seq<byte>)
    requires Shape(s)
    ensures ScanFrom(s, recs, digest).Ok? ==> Shape(ScanFrom(s, recs, digest).value)
    decreases |recs|
  {
    if |recs| > 0 {
      ScanShape(s, recs[..|recs| - 1], digest);
      var u := ScanFrom(s, recs[..|recs| - 1], digest);
      if u.Ok? {
        StepShape(u.value, recs[|recs| - 1], digest);
      }
    }
  }

  /** Scanning a file leaves its lists and maps consistent and its renaming tables empty. */
  lemma ScanConsistent(rn: seq<string>, mn: seq<string>, recs: seq<Rec>, digest: seq<byte> -> seq<byte>)
    ensures var r := ScanFrom(Start(rn, mn), recs, digest);
            r.Ok? ==> Consistent(r.value.file) && r.value.file.renamings == map[] && r.value.file.renameIMM == map[]
  {
    ScanShape(Start(rn, mn), recs, digest);
  }

  // ---------------------------------------------------------------------------
  // Medium maps are recorded under the name of the BMM they open with.

  /**
   * Every recorded medium map that opens with a BMM opens with a BMM of its
   * own name, and while the formdef is being captured the open medium map has
   * already received its first field.
   */
  ghost predicate Named(s: ScanState)
  {
    && Open(s)
    && MapsNamed(s.file)
    && (s.mediumMap.Some? && s.processingFormdef ==> |s.file.mediumMaps[s.mediumMap.value].sfs| > 0)
  }

  lemma NamedBrs(s: ScanState, f: Field)
    requires Named(s) && f.BRS?
    ensures Named(OnBrs(s, f))
  {
  }

  lemma NamedFormdef(s: ScanState, f: Field)
    requires Named(s)
    ensures Named(AddToFormdef(s, f))
  {
  }

  /** Adding a field to the open medium map and the buffer never changes a map's first field. */
  lemma NamedAdd(s: ScanState, f: Field, raw: seq<byte>)
    requires Named(s)
    ensures Named(AddToMapAndBuffer(s, f, raw))
  {
  }

  lemma NamedBfm(s: ScanState, f: Field, raw: seq<byte>)
    requires Named(s) && f.BFM?
    ensures Named(Common(OnBfm(s), f, raw))
  {
    var t := AddToFormdef(OnBfm(s), f);
    assert Open(t) && MapsNamed(t.file);
    if t.processingFormdef && t.mediumMap.Some? {
      var n := t.mediumMap.value;
      var mm := t.file.mediumMaps[n];
      assert AddToMapAndBuffer(t, f, raw).file.mediumMaps[n].sfs == mm.sfs + [f];
    }
  }

  lemma NamedBmm(s: ScanState, f: Field, raw: seq<byte>)
    requires Named(s) && f.BMM?
    ensures Named(AddToMapAndBuffer(OnBmm(AddToFormdef(s, f), f.mmName), f, raw))
  {
    var t := AddToFormdef(s, f);
    NamedFormdef(s, f);
    if t.isFirstFormdef {
      var u := OnBmm(t, f.mmName);
      var n := f.mmName;
      assert u.file.mediumMaps[n].sfs == [];
      assert forall m :: m in u.file.mediumMaps && m != n ==> u.file.mediumMaps[m] == t.file.mediumMaps[m];
      assert MapsNamed(u.file);
      var v := AddToMapAndBuffer(u, f, raw);
      if u.processingFormdef {
        assert v.file.mediumMaps[n].sfs == [f];
      }
    } else {
      NamedAdd(t, f, raw);
    }
  }

  lemma NamedEmm(s: ScanState, filepos: nat, digest: seq<byte> -> seq<byte>)
    requires Named(s)
    ensures Named(OnEmm(s, filepos, digest))
  {
  }

  lemma NamedErs(s: ScanState, filepos: nat, digest: seq<byte> -> seq<byte>)
    requires Named(s)
    ensures OnErs(s, filepos, digest).Ok? ==> Named(OnErs(s, filepos, digest).value)
  {
  }

  lemma FieldStepNamed(s: ScanState, f: Field, raw: seq<byte>, cur: nat, digest: seq<byte> -> seq<byte>)
    requires Named(s)
    ensures FieldStep(s, f, raw, cur, digest).Ok? ==> Named(FieldStep(s, f, raw, cur, digest).value)
  {
    NamedFormdef(s, f);
    NamedAdd(AddToFormdef(s, f), f, raw);
    if f.BRS? {
      NamedBrs(s, f);
      NamedFormdef(OnBrs(s, f), f);
      NamedAdd(AddToFormdef(OnBrs(s, f), f), f, raw);
    } else if f.BFM? {
      NamedBfm(s, f, raw);
    } else if f.BMM? {
      NamedBmm(s, f, raw);
    } else if f.EMM? {
      NamedEmm(Common(s, f, raw), cur, digest);
    } else if f.ERS? {
      NamedErs(Common(s, f, raw), cur, digest);
    }
  }

  lemma NamedAdvance(s: ScanState, p: nat)
    requires Named(s)
    ensures Named(s.(prevFilePos := p))
  {
  }

  lemma StepNamedField(s: ScanState, r: Rec, digest: seq<byte> -> seq<byte>)
    requires Named(s) && !s.done && !r.field.ERG?
    ensures Step(s, r, digest).Ok? ==> Named(Step(s, r, digest).value)
  {
    var fp := s.prevFilePos + |r.raw|;
    var t := FieldStep(s, r.field, r.raw, fp, digest);
    StepUnfold(s, r, digest);
    assert Step(s, r, digest) == if t.Err? then t else Ok(t.value.(prevFilePos := fp));
    if t.Ok? {
      FieldStepNamed(s, r.field, r.raw, fp, digest);
      assert Named(t.value);
      NamedAdvance(t.value, fp);
      assert Named(t.value.(prevFilePos := fp));
    }
  }

  lemma StepNamed(s: ScanState, r: Rec, digest: seq<byte> -> seq<byte>)
    requires Named(s)
    ensures Step(s, r, digest).Ok? ==> Named(Step(s, r, digest).value)
  {
    if s.done {
    } else if r.field.ERG? {
      StepErg(s, r, digest);
    } else {
      StepNamedField(s, r, digest);
    }
  }

  lemma {:induction false} ScanNamed(s: ScanState, recs: seq<Rec>, digest: seq<byte> -> seq<byte>)
    requires Named(s)
    ensures ScanFrom(s, recs, digest).Ok? ==> Named(ScanFrom(s, recs, digest).value)
    decreases |recs|
  {
    if |recs| > 0 {
      ScanNamed(s, recs[..|recs| - 1], digest);
      var u := ScanFrom(s, recs[..|recs| - 1], digest);
      if u.Ok? {
        StepNamed(u.value, recs[|recs| - 1], digest);
      }
    }
  }

  /** Scanning a file records every medium map under the name of the BMM it opens with. */
  lemma ScanMapsNamed(rn: seq<string>, mn: seq<string>, recs: seq<Rec>, digest: seq<byte> -> seq<byte>)
    ensures var r := ScanFrom(Start(rn, mn), recs, digest);
            r.Ok? ==> MapsNamed(r.value.file)
  {
    ScanNamed(Start(rn, mn), recs, digest);
  }

  // ---------------------------------------------------------------------------
  // Every recorded resource is anchored at the records it was read from.

  /** Record `j` of `recs` is a BRS of key `k` beginning at offset `pos`. */
  ghost predicate BrsRecord(recs: seq<Rec>, j: int, pos: int, k: ResourceKey)
  {
    0 <= j < |recs| && Offset(recs, j) == pos && recs[j].field.BRS? && KeyOfBrs(recs[j].field) == k
  }

  /** Record `j` of `recs` is an ERS beginning at offset `pos` and ending at offset `end`. */
  ghost predicate ErsRecord(recs: seq<Rec>, j: int, pos: int, end: int)
  {
    0 <= j < |recs| && Offset(recs, j) == pos && recs[j].field.ERS? && Offset(recs, j + 1) == end
  }

  /** Record `j` of `recs` is a BMM beginning at offset `pos`. */
  ghost predicate BmmRecord(recs: seq<Rec>, j: int, pos: int)
  {
    0 <= j < |recs| && Offset(recs, j) == pos && recs[j].field.BMM?
  }

  ghost predicate BrsAt(recs: seq<Rec>, pos: int, k: ResourceKey)
  {
    exists j :: BrsRecord(recs, j, pos, k)
  }

  ghost predicate ErsAt(recs: seq<Rec>, pos: int, end: int)
  {
    exists j :: ErsRecord(recs, j, pos, end)
  }

  ghost predicate BmmAt(recs: seq<Rec>, pos: int)
  {
    exists j :: BmmRecord(recs, j, pos)
  }

  /** No BMM record begins at an offset from `lo` up to, but not including, `hi`. */
  ghost predicate NoBmmWithin(recs: seq<Rec>, lo: int, hi: int)
  {
    forall pos :: lo <= pos < hi ==> !BmmAt(recs, pos)
  }

  /**
   * Where the hashed bytes of a resource whose bytes run up to offset `end`
   * begin: at its BRS, or at a BMM that reset the buffer and is the last BMM
   * record before `end`.
   */
  ghost predicate HashFrom(recs: seq<Rec>, start: int, pos: int, end: int)
  {
    pos == start || (BmmAt(recs, pos) && NoBmmWithin(recs, pos + 1, end))
  }

  /** A resource starts at a BRS of its key; once completed, it ends with the ERS at its ERS offset and its hashed bytes begin at its BRS or at the last BMM before its end. */
  ghost predicate ResAnchored(recs: seq<Rec>, k: ResourceKey, res: Resource)
  {
    && BrsAt(recs, res.start, k)
    && (res.hash.Some? ==> ErsAt(recs, res.ersPos, res.end) && HashFrom(recs, res.start, res.end - |res.content|, res.end))
  }

  /** Every resource of the position table `fp` is anchored. */
  ghost predicate AllAnchored(recs: seq<Rec>, fp: map<ResourceKey, Resource>)
  {
    forall k :: k in fp ==> ResAnchored(recs, k, fp[k])
  }

  /**
   * The open buffer, which ends at offset `cur`, starts at the open
   * resource's BRS or at the last BMM before `cur`; a buffer a BMM started
   * belongs to the first form definition.
   */
  ghost predicate BufferAnchored(s: ScanState, recs: seq<Rec>, cur: int)
  {
    s.resource.Some? && s.buffer.Some? && s.resource.value in s.file.filePos ==>
      var start := s.file.filePos[s.resource.value].start;
      HashFrom(recs, start, cur - |s.buffer.value|, cur) && (cur - |s.buffer.value| != start ==> s.isFirstFormdef)
  }

  /** Every recorded resource and the open buffer are anchored. */
  ghost predicate Anchored(s: ScanState, recs: seq<Rec>, cur: int)
  {
    AllAnchored(recs, s.file.filePos) && BufferAnchored(s, recs, cur)
  }

  /** A step that leaves the resources alone and keeps the buffer where it was keeps the invariant. */
  lemma AnchoredSame(s: ScanState, t: ScanState, recs: seq<Rec>, cur: int)
    requires Anchored(s, recs, cur)
    requires t.file.filePos == s.file.filePos && t.resource == s.resource
    requires t.buffer.Some? ==> t.buffer == s.buffer && t.isFirstFormdef == s.isFirstFormdef
    ensures Anchored(t, recs, cur)
  {
  }

  /** What the field `f`, read from offset `pos`, contributes as an anchor. */
  ghost predicate AnchorsOf(recs: seq<Rec>, f: Field, raw: seq<byte>, pos: int)
  {
    && (f.BRS? ==> BrsAt(recs, pos, KeyOfBrs(f)))
    && (f.BMM? ==> BmmAt(recs, pos))
    && (f.ERS? ==> ErsAt(recs, pos, pos + |raw|))
    && NoBmmWithin(recs, if f.BMM? then pos + 1 else pos, pos + |raw|)
  }
}
