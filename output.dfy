/**
 * What the merged file holds: the resource group (writeResourceGroup) and
 * the documents of every input file with their references patched
 * (writeDocuments).
 *
 * The output stream is a sequence of items: a structured field handed to the
 * codec for encoding, or bytes copied verbatim from an input file.
 */
module Output {
  import opened Wrappers
  import opened Afp
  import opened Patchers

  datatype Out = OutField(field: Field) | OutBytes(bytes: seq<byte>)

  datatype WriteError =
    | NoFieldAt(pos: nat)              // a position that is not the start of a structured field
    | NotBrs(pos: nat)                 // the cast to BRS fails
    | NotErs(pos: nat)                 // the cast to ERS fails
    | NegativeLength(left: int)        // a read of negative length
    | ShortCopy(from: nat, count: nat) // end of file before the resource body was copied
    | PatchFailed(cause: PatchError)   // a patcher failed

  // ---------------------------------------------------------------------------
  // Positioning the reader

  /** The first record, at or after `k`, that begins at byte offset `pos` (`|recs|` for the end of the file). */
  function BoundaryFrom(recs: seq<Rec>, pos: nat, k: nat): (r: Option<nat>)
    requires k <= |recs|
    ensures r.Some? ==> k <= r.value <= |recs| && Offset(recs, r.value) == pos
    ensures r.None? ==> forall i :: k <= i <= |recs| ==> Offset(recs, i) != pos
    decreases |recs| - k
  {
    if Offset(recs, k) == pos then Some(k)
    else if k == |recs| then None
    else BoundaryFrom(recs, pos, k + 1)
  }

  function Boundary(recs: seq<Rec>, pos: nat): Option<nat>
  {
    BoundaryFrom(recs, pos, 0)
  }

  /** position(pos) followed by readStructuredField(): the field there and the offset after it. */
  function ReadAt(recs: seq<Rec>, pos: nat): (r: Result<(Field, nat), WriteError>)
    ensures r.Ok? ==> exists i :: 0 <= i < |recs| && Offset(recs, i) == pos &&
                                r.value == (recs[i].field, Offset(recs, i + 1))
    ensures r.Ok? ==> r.value.1 <= |Bytes(recs)|
  {
    match Boundary(recs, pos)
    case Some(i) =>
      if i < |recs| then
        BytesPrefix(recs, i + 1, |recs|);
        assert recs[..|recs|] == recs;
        Ok((recs[i].field, Offset(recs, i + 1)))
      else Err(NoFieldAt(pos))
    case None => Err(NoFieldAt(pos))
  }

  // ---------------------------------------------------------------------------
  // Copying a resource body

  /** The bytes a copy of `left` bytes from offset `from` yields. */
  function Copied(bytes: seq<byte>, from: nat, left: int): (r: Result<seq<byte>, WriteError>)
    ensures r.Ok? <==> 0 <= left && (left == 0 || from + left <= |bytes|)
    ensures r.Ok? ==> |r.value| == left && forall j :: 0 <= j < left ==> r.value[j] == bytes[from + j]
  {
    if left < 0 then Err(NegativeLength(left))
    else if left == 0 then Ok([])
    else if from + left > |bytes| then Err(ShortCopy(from, left))
    else Ok(bytes[from..from + left])
  }

  const BufferSize := 8 * 1024

  /** read(buffer, 0, len) at offset `pos`: the byte count, or -1 at the end of the file. */
  function ReadCount(size: nat, pos: nat, len: nat): int
  {
    if len == 0 then 0
    else if pos >= size then -1
    else if len < size - pos then len
    else size - pos
  }

  /** The buffered copy loop of writeResourceGroup. */
  method CopyBytes(bytes: seq<byte>, from: nat, left0: int) returns (r: Result<seq<byte>, WriteError>)
    requires from <= |bytes|
    ensures r == Copied(bytes, from, left0)
  {
    var copied: seq<byte> := [];
    var pos := from;
    var left := left0;
    while true
      invariant from <= pos <= |bytes| && left == left0 - (pos - from)
      invariant copied == bytes[from..pos]
      invariant left0 < 0 ==> pos == from
      invariant left0 >= 0 ==> left >= 0
      decreases |bytes| - pos
    {
      var len := if left > BufferSize then BufferSize else left;
      if len < 0 {
        return Err(NegativeLength(left0));
      }
      var l := ReadCount(|bytes|, pos, len);
      if l <= 0 {
        break;
      }
      copied := copied + bytes[pos..pos + l];
      pos := pos + l;
      left := left - l;
    }
    if left > 0 {
      return Err(ShortCopy(from, left0));
    }
    return Ok(copied);
  }

  // ---------------------------------------------------------------------------
  // The resource group

  /** One resource as written: its BRS, its body copied verbatim, its ERS; renamed when `newName` is given. */
  function CopyResource(recs: seq<Rec>, res: Resource, newName: Option<string>): (r: Result<seq<Out>, WriteError>)
    ensures r.Ok? ==> (|r.value| == 3 && r.value[0].OutField? && r.value[0].field.BRS? &&
                       r.value[1].OutBytes? && r.value[2].OutField? && r.value[2].field.ERS?)
    ensures r.Ok? && newName.Some? ==> r.value[0].field.rsName == newName.value && r.value[2].field.rsName == newName.value
    ensures r.Ok? ==> ReadAt(recs, res.start).Ok? && ReadAt(recs, res.ersPos).Ok? &&
                      var brs, ers := ReadAt(recs, res.start).value.0, ReadAt(recs, res.ersPos).value.0;
                      brs.BRS? && ers.ERS? &&
                      match newName
                      case None => r.value[0].field == brs && r.value[2].field == ers
                      case Some(n) => r.value[0].field == RenameBrsErs(brs, n) && r.value[2].field == RenameBrsErs(ers, n)
  {
    var (brs, from) :- ReadAt(recs, res.start);
    if !brs.BRS? then Err(NotBrs(res.start))
    else
      var body :- Copied(Bytes(recs), from, res.ersPos - from);
      var (ers, _) :- ReadAt(recs, res.ersPos);
      if !ers.ERS? then Err(NotErs(res.ersPos))
      else match newName
        case Some(n) => Ok([OutField(RenameBrsErs(brs, n)), OutBytes(body), OutField(RenameBrsErs(ers, n))])
        case None => Ok([OutField(brs), OutBytes(body), OutField(ers)])
  }

  /** The body of the resource loop of writeResourceGroup, once the resource is to be written. */
  method WriteResource(recs: seq<Rec>, res: Resource, newName: Option<string>) returns (r: Result<seq<Out>, WriteError>)
    ensures r == CopyResource(recs, res, newName)
  {
    var rd := ReadAt(recs, res.start);
    if rd.Err? {
      return Err(rd.error);
    }
    var brs, from := rd.value.0, rd.value.1;
    if !brs.BRS? {
      return Err(NotBrs(res.start));
    }
    var body := CopyBytes(Bytes(recs), from, res.ersPos - from);
    if body.Err? {
      return Err(body.error);
    }
    var rd2 := ReadAt(recs, res.ersPos);
    if rd2.Err? {
      return Err(rd2.error);
    }
    var ers := rd2.value.0;
    if !ers.ERS? {
      return Err(NotErs(res.ersPos));
    }
    if newName.Some? {
      var n := newName.value;
      var ts := OverrideGid(brs.triplets, n);
      brs := brs.(rsName := n, triplets := ts);
      ers := ERS(n);
    }
    return Ok([OutField(brs), OutBytes(body.value), OutField(ers)]);
  }

  /** The keys written so far (resourcesWritten) and the output so far. */
  datatype GroupState = GroupState(written: seq<ResourceKey>, out: seq<Out>)

  /** The key a resource of `file` is written under. */
  function FinalKey(file: InputFile, k: ResourceKey): ResourceKey
  {
    if k in file.renamings then ResourceKey(k.objType, file.renamings[k], k.objId) else k
  }

  /** The name a resource of `file` is re-encoded with, if it is renamed. */
  function NewName(file: InputFile, k: ResourceKey): Option<string>
  {
    if k in file.renamings then Some(file.renamings[k]) else None
  }

  /**
   * The body of the loop over one file's resources. The source positions the
   * stream and reads the BRS before it checks whether the key was written
   * (`AfpCombine.java:426-427`); here a key already written is skipped
   * without reading. The two agree on scanned files, where a BRS record
   * begins at the start of every resource (`ScanAnchors.ResourcesAnchored`).
   */
  function ResourceStep(st: GroupState, file: InputFile, recs: seq<Rec>, k: ResourceKey): Result<GroupState, WriteError>
    requires k in file.filePos
  {
    if k.objType == FormMap then Ok(st)
    else
      var nk := FinalKey(file, k);
      if nk in st.written then Ok(st)
      else
        var items :- CopyResource(recs, file.filePos[k], NewName(file, k));
        Ok(GroupState(st.written + [nk], st.out + items))
  }

  /** The loop over the keys `ks` of one file, in order. */
  function ResourcesFrom(st: GroupState, file: InputFile, recs: seq<Rec>, ks: seq<ResourceKey>): Result<GroupState, WriteError>
    requires forall k :: k in ks ==> k in file.filePos
  {
    if |ks| == 0 then Ok(st)
    else
      var st' :- ResourcesFrom(st, file, recs, ks[..|ks| - 1]);
      ResourceStep(st', file, recs, ks[|ks| - 1])
  }

  /** The loop over the files. */
  function FilesResources(st: GroupState, files: seq<InputFile>, inputs: seq<seq<Rec>>): Result<GroupState, WriteError>
    requires |inputs| == |files| && AllConsistent(files)
  {
    if |files| == 0 then Ok(st)
    else
      var n := |files| - 1;
      AllConsistentPrefix(files, n);
      var st' :- FilesResources(st, files[..n], inputs[..n]);
      ResourcesFrom(st', files[n], inputs[n], files[n].resources)
  }

  /** The inline form map the resource group starts with. */
  function InlineFormdef(formdef: seq<Field>): seq<Out>
  {
    [OutField(BRS("F1INLINE", FormMap, None, []))] + Items(formdef) + [OutField(ERS(""))]
  }

  function Items(fs: seq<Field>): (r: seq<Out>)
    ensures |r| == |fs| && forall i :: 0 <= i < |fs| ==> r[i] == OutField(fs[i])
  {
    if |fs| == 0 then [] else Items(fs[..|fs| - 1]) + [OutField(fs[|fs| - 1])]
  }

  /** writeResourceGroup: everything it writes, in order. */
  function ResourceGroup(files: seq<InputFile>, inputs: seq<seq<Rec>>, formdef: seq<Field>): (r: Result<seq<Out>, WriteError>)
    requires |inputs| == |files| && AllConsistent(files)
  {
    var st :- FilesResources(GroupState([], []), files, inputs);
    Ok([OutField(BRG([]))] + InlineFormdef(formdef) + st.out + [OutField(ERG([]))])
  }

  // ---------------------------------------------------------------------------
  // Properties of the resource group

  ghost predicate Unique<T>(s: seq<T>)
  {
    forall i, j :: 0 <= i < j < |s| ==> s[i] != s[j]
  }

  /** The output is one BRS, body, ERS triple per written key, in order. */
  ghost predicate Layout(st: GroupState)
  {
    && |st.out| == 3 * |st.written|
    && forall n :: 0 <= n < |st.written| ==>
         st.out[3 * n].OutField? && st.out[3 * n].field.BRS? && st.out[3 * n + 1].OutBytes? &&
         st.out[3 * n + 2].OutField? && st.out[3 * n + 2].field.ERS?
  }

  ghost predicate GroupInv(st: GroupState)
  {
    Unique(st.written) && (forall k :: k in st.written ==> k.objType != FormMap) && Layout(st)
  }

  lemma ResourceStepInv(st: GroupState, file: InputFile, recs: seq<Rec>, k: ResourceKey)
    requires k in file.filePos && GroupInv(st)
    ensures var r := ResourceStep(st, file, recs, k);
            r.Ok? ==> GroupInv(r.value) && st.written <= r.value.written && st.out <= r.value.out &&
                      (k.objType != FormMap ==> FinalKey(file, k) in r.value.written)
  {
    var r := ResourceStep(st, file, recs, k);
    if r.Ok? && k.objType != FormMap && FinalKey(file, k) !in st.written {
      var w := r.value;
      assert w.written == st.written + [FinalKey(file, k)];
      var items := w.out[|st.out|..];
      assert w.out == st.out + items;
      forall n | 0 <= n < |w.written|
        ensures w.out[3 * n].OutField? && w.out[3 * n].field.BRS? && w.out[3 * n + 1].OutBytes? &&
                w.out[3 * n + 2].OutField? && w.out[3 * n + 2].field.ERS?
      {
        if n == |st.written| {
          assert w.out[3 * n] == items[0] && w.out[3 * n + 1] == items[1] && w.out[3 * n + 2] == items[2];
        } else {
          assert w.out[3 * n] == st.out[3 * n] && w.out[3 * n + 1] == st.out[3 * n + 1] && w.out[3 * n + 2] == st.out[3 * n + 2];
        }
      }
    }
  }

  lemma {:induction false} ResourcesFromInv(st: GroupState, file: InputFile, recs: seq<Rec>, ks: seq<ResourceKey>)
    requires (forall k :: k in ks ==> k in file.filePos) && GroupInv(st)
    ensures var r := ResourcesFrom(st, file, recs, ks);
            r.Ok? ==> GroupInv(r.value) && st.written <= r.value.written && st.out <= r.value.out &&
                      forall k :: k in ks && k.objType != FormMap ==> FinalKey(file, k) in r.value.written
  {
    if |ks| > 0 {
      var init := ks[..|ks| - 1];
      var last := ks[|ks| - 1];
      assert forall k :: k in init ==> k in ks;
      ResourcesFromInv(st, file, recs, init);
      var r0 := ResourcesFrom(st, file, recs, init);
      if r0.Ok? {
        ResourceStepInv(r0.value, file, recs, last);
        var r := ResourcesFrom(st, file, recs, ks);
        assert r == ResourceStep(r0.value, file, recs, last);
        if r.Ok? {
          forall k | k in ks && k.objType != FormMap
            ensures FinalKey(file, k) in r.value.written
          {
            if k != last {
              assert k in init;
              assert FinalKey(file, k) in r0.value.written;
            }
          }
        }
      }
    }
  }

  lemma {:induction false} FilesResourcesInv(st: GroupState, files: seq<InputFile>, inputs: seq<seq<Rec>>)
    requires |inputs| == |files| && AllConsistent(files) && GroupInv(st)
    ensures var r := FilesResources(st, files, inputs);
            r.Ok? ==> GroupInv(r.value) && st.written <= r.value.written &&
                      forall i, k :: 0 <= i < |files| && k in files[i].resources && k.objType != FormMap ==>
                        FinalKey(files[i], k) in r.value.written
  {
    if |files| > 0 {
      var n := |files| - 1;
      AllConsistentPrefix(files, n);
      FilesResourcesInv(st, files[..n], inputs[..n]);
      var r0 := FilesResources(st, files[..n], inputs[..n]);
      if r0.Ok? {
        ResourcesFromInv(r0.value, files[n], inputs[n], files[n].resources);
        var r := FilesResources(st, files, inputs);
        assert r == ResourcesFrom(r0.value, files[n], inputs[n], files[n].resources);
        if r.Ok? {
          forall i, k | 0 <= i < |files| && k in files[i].resources && k.objType != FormMap
            ensures FinalKey(files[i], k) in r.value.written
          {
            if i < n {
              assert files[..n][i] == files[i];
              assert FinalKey(files[i], k) in r0.value.written;
            }
          }
        }
      }
    }
  }

  /**
   * The resource group holds every resource of every file under its final key,
   * no key twice and no form map; each is a BRS, its body and an ERS.
   */
  lemma ResourceGroupProperties(files: seq<InputFile>, inputs: seq<seq<Rec>>)
    requires |inputs| == |files| && AllConsistent(files)
    ensures var r := FilesResources(GroupState([], []), files, inputs);
            r.Ok? ==>
              && Unique(r.value.written)
              && (forall k :: k in r.value.written ==> k.objType != FormMap)
              && Layout(r.value)
              && (forall i, k :: 0 <= i < |files| && k in files[i].resources && k.objType != FormMap ==>
                    FinalKey(files[i], k) in r.value.written)
  {
    FilesResourcesInv(GroupState([], []), files, inputs);
  }

  // ---------------------------------------------------------------------------
  // Which occurrence of each key is written

  /** Resource `key` of file number `file`, as the loops of writeResourceGroup visit it. */
  datatype Occ = Occ(file: nat, key: ResourceKey)

  /** The keys `ks` of file `i` that are not form maps, in order. */
  function FileOccs(i: nat, ks: seq<ResourceKey>): seq<Occ>
  {
    if |ks| == 0 then []
    else FileOccs(i, ks[..|ks| - 1]) + (if ks[|ks| - 1].objType == FormMap then [] else [Occ(i, ks[|ks| - 1])])
  }

  /** Every resource of every file that is not a form map, file by file, each file's in its `resources` order. */
  function Occurrences(files: seq<InputFile>): seq<Occ>
  {
    if |files| == 0 then []
    else Occurrences(files[..|files| - 1]) + FileOccs(|files| - 1, files[|files| - 1].resources)
  }

  /** The key an occurrence is written under. */
  function FinalOf(files: seq<InputFile>, o: Occ): ResourceKey
  {
    if o.file < |files| then FinalKey(files[o.file], o.key) else o.key
  }

  function Finals(files: seq<InputFile>, os: seq<Occ>): (r: seq<ResourceKey>)
    ensures |r| == |os| && forall m :: 0 <= m < |os| ==> r[m] == FinalOf(files, os[m])
  {
    if |os| == 0 then [] else Finals(files, os[..|os| - 1]) + [FinalOf(files, os[|os| - 1])]
  }

  /** The elements of `s` in order, each at its first occurrence only. */
  function Dedup<T(==)>(s: seq<T>): seq<T>
  {
    if |s| == 0 then []
    else
      var d := Dedup(s[..|s| - 1]);
      if s[|s| - 1] in s[..|s| - 1] then d else d + [s[|s| - 1]]
  }

  lemma {:induction false} DedupMembers<T>(s: seq<T>)
    ensures forall x :: x in Dedup(s) <==> x in s
    decreases |s|
  {
    if |s| > 0 {
      var init := s[..|s| - 1];
      DedupMembers(init);
      assert s == init + [s[|s| - 1]];
    }
  }

  lemma {:induction false} DedupUnique<T>(s: seq<T>)
    ensures Unique(Dedup(s))
    decreases |s|
  {
    if |s| > 0 {
      var init := s[..|s| - 1];
      DedupUnique(init);
      DedupMembers(init);
    }
  }

  /** The index of the first occurrence of `x` in `s`. */
  function FirstIndex<T(==)>(s: seq<T>, x: T): (m: nat)
    requires x in s
    ensures m < |s| && s[m] == x && forall j :: 0 <= j < m ==> s[j] != x
  {
    if s[0] == x then 0 else 1 + FirstIndex(s[1..], x)
  }

  lemma FirstIndexPrefix<T>(s: seq<T>, t: seq<T>, x: T)
    requires x in s
    ensures FirstIndex(s + t, x) == FirstIndex(s, x)
  {
    var m := FirstIndex(s, x);
    assert (s + t)[m] == s[m];
  }

  /** `items` is what CopyResource writes for the occurrence `o`. */
  ghost predicate CopiedAs(files: seq<InputFile>, inputs: seq<seq<Rec>>, o: Occ, items: seq<Out>)
  {
    && o.file < |files| && o.file < |inputs| && o.key in files[o.file].filePos
    && CopyResource(inputs[o.file], files[o.file].filePos[o.key], NewName(files[o.file], o.key)) == Ok(items)
  }

  /** What the resource group writes for an occurrence (an occurrence of no file's resource has no copy). */
  ghost function CopyOf(files: seq<InputFile>, inputs: seq<seq<Rec>>): Occ -> Result<seq<Out>, WriteError>
  {
    (o: Occ) => if o.file < |files| && o.file < |inputs| && o.key in files[o.file].filePos
                then CopyResource(inputs[o.file], files[o.file].filePos[o.key], NewName(files[o.file], o.key))
                else Err(NoFieldAt(0))
  }

  lemma CopyOfCopied(files: seq<InputFile>, inputs: seq<seq<Rec>>, o: Occ, items: seq<Out>)
    requires CopyOf(files, inputs)(o) == Ok(items)
    ensures CopiedAs(files, inputs, o, items)
  {
  }

  /**
   * The n-th triple of `out` is `copy` of the first occurrence in `os` of the
   * n-th written key, where `fs` are the final keys of `os`.
   */
  ghost predicate TripleAt(written: seq<ResourceKey>, out: seq<Out>, fs: seq<ResourceKey>, os: seq<Occ>,
                           copy: Occ -> Result<seq<Out>, WriteError>, n: nat)
  {
    && n < |written| && 3 * n + 3 <= |out| && |fs| == |os| && written[n] in fs
    && copy(os[FirstIndex(fs, written[n])]) == Ok(out[3 * n..3 * n + 3])
  }

  /**
   * The state after the occurrences `os`: the written keys are the final keys
   * of `os` with repeats dropped, and the n-th triple is `copy` of the first
   * occurrence of the n-th written key.
   */
  ghost predicate Matches(st: GroupState, files: seq<InputFile>, os: seq<Occ>, copy: Occ -> Result<seq<Out>, WriteError>)
  {
    && st.written == Dedup(Finals(files, os))
    && |st.out| == 3 * |st.written|
    && forall n :: 0 <= n < |st.written| ==> TripleAt(st.written, st.out, Finals(files, os), os, copy, n)
  }

  lemma SliceConcat<T>(a: seq<T>, b: seq<T>, lo: nat, hi: nat)
    requires lo <= hi <= |a|
    ensures (a + b)[lo..hi] == a[lo..hi]
  {
  }

  lemma SliceConcatRight<T>(a: seq<T>, b: seq<T>)
    ensures (a + b)[|a|..|a| + |b|] == b
  {
  }

  /** Facts about the final keys of one more occurrence. */
  lemma FinalsSnoc(files: seq<InputFile>, os: seq<Occ>, o: Occ)
    ensures Finals(files, os + [o]) == Finals(files, os) + [FinalOf(files, o)]
    ensures forall x :: x in Dedup(Finals(files, os)) <==> x in Finals(files, os)
  {
    assert (os + [o])[..|os|] == os;
    DedupMembers(Finals(files, os));
  }

  /** One more occurrence leaves a triple whose key occurred already where it was. */
  lemma TripleAtSnoc(written: seq<ResourceKey>, out: seq<Out>, fs: seq<ResourceKey>, os: seq<Occ>,
                     copy: Occ -> Result<seq<Out>, WriteError>, n: nat, x: ResourceKey, o: Occ)
    requires TripleAt(written, out, fs, os, copy, n)
    ensures TripleAt(written, out, fs + [x], os + [o], copy, n)
  {
    var m := FirstIndex(fs, written[n]);
    FirstIndexPrefix(fs, [x], written[n]);
    assert (os + [o])[m] == os[m];
  }

  /** One more written key and triple leave the earlier triples where they were. */
  lemma TripleAtGrow(written: seq<ResourceKey>, out: seq<Out>, fs: seq<ResourceKey>, os: seq<Occ>,
                     copy: Occ -> Result<seq<Out>, WriteError>, n: nat, x: ResourceKey, items: seq<Out>)
    requires TripleAt(written, out, fs, os, copy, n)
    ensures TripleAt(written + [x], out + items, fs, os, copy, n)
  {
    assert (written + [x])[n] == written[n];
    SliceConcat(out, items, 3 * n, 3 * n + 3);
  }

  /** An occurrence whose final key was written already changes nothing. */
  lemma MatchesSkip(st: GroupState, files: seq<InputFile>, os: seq<Occ>, o: Occ, copy: Occ -> Result<seq<Out>, WriteError>)
    requires Matches(st, files, os, copy) && FinalOf(files, o) in st.written
    ensures Matches(st, files, os + [o], copy)
  {
    var fs, nk := Finals(files, os), FinalOf(files, o);
    FinalsSnoc(files, os, o);
    var fs' := fs + [nk];
    assert fs'[..|fs|] == fs;
    forall n | 0 <= n < |st.written|
      ensures TripleAt(st.written, st.out, fs', os + [o], copy, n)
    {
      TripleAtSnoc(st.written, st.out, fs, os, copy, n, nk, o);
    }
  }

  /** The n-th written key of a matching state comes from `os`, and its triple is the copy of its first occurrence. */
  lemma MatchesAt(st: GroupState, files: seq<InputFile>, os: seq<Occ>, copy: Occ -> Result<seq<Out>, WriteError>, n: nat)
    requires Matches(st, files, os, copy) && n < |st.written|
    ensures st.written[n] in Finals(files, os)
    ensures copy(os[FirstIndex(Finals(files, os), st.written[n])]) == Ok(st.out[3 * n..3 * n + 3])
  {
    assert TripleAt(st.written, st.out, Finals(files, os), os, copy, n);
  }

  /** A new final key's triple is the copy of the occurrence that brought it. */
  lemma MatchesAddNew(written: seq<ResourceKey>, out: seq<Out>, fs: seq<ResourceKey>, os: seq<Occ>, o: Occ, x: ResourceKey,
                      items: seq<Out>, copy: Occ -> Result<seq<Out>, WriteError>)
    requires |out| == 3 * |written| && |fs| == |os| && x !in fs
    requires copy(o) == Ok(items) && |items| == 3
    ensures TripleAt(written + [x], out + items, fs + [x], os + [o], copy, |written|)
  {
    var n := |written|;
    assert (written + [x])[n] == x;
    FirstIndexSnocNew(fs, x);
    assert (os + [o])[|os|] == o;
    SliceAt(out, items, 3 * n, 3 * n + 3);
  }

  /** A new last element is first found at the end. */
  lemma FirstIndexSnocNew<T>(s: seq<T>, x: T)
    requires x !in s
    ensures FirstIndex(s + [x], x) == |s|
  {
  }

  /** The slice of a concatenation at the second part's bounds is that part. */
  lemma SliceAt<T>(a: seq<T>, b: seq<T>, i: int, j: int)
    requires i == |a| && j == |a| + |b|
    ensures (a + b)[i..j] == b
  {
  }

  /** A new element is kept by Dedup, at the end. */
  lemma DedupSnocNew<T>(s: seq<T>, x: T)
    requires x !in s
    ensures Dedup(s + [x]) == Dedup(s) + [x]
  {
    assert (s + [x])[..|s|] == s;
  }

  /** Appending a new final key, its occurrence and its copy keeps every triple the copy of its key's first occurrence. */
  lemma TriplesAdd(written: seq<ResourceKey>, out: seq<Out>, fs: seq<ResourceKey>, os: seq<Occ>,
                   copy: Occ -> Result<seq<Out>, WriteError>, x: ResourceKey, o: Occ, items: seq<Out>)
    requires |out| == 3 * |written| && |fs| == |os| && x !in fs
    requires copy(o) == Ok(items) && |items| == 3
    requires forall n :: 0 <= n < |written| ==> TripleAt(written, out, fs, os, copy, n)
    ensures forall n :: 0 <= n < |written + [x]| ==> TripleAt(written + [x], out + items, fs + [x], os + [o], copy, n)
  {
    forall n | 0 <= n < |written + [x]|
      ensures TripleAt(written + [x], out + items, fs + [x], os + [o], copy, n)
    {
      if n < |written| {
        TripleAtSnoc(written, out, fs, os, copy, n, x, o);
        TripleAtGrow(written, out, fs + [x], os + [o], copy, n, x, items);
      } else {
        MatchesAddNew(written, out, fs, os, o, x, items, copy);
      }
    }
  }

  /** An occurrence with a new final key appends that key and its copy. */
  lemma MatchesAdd(st: GroupState, files: seq<InputFile>, os: seq<Occ>, o: Occ, items: seq<Out>, copy: Occ -> Result<seq<Out>, WriteError>)
    requires Matches(st, files, os, copy) && FinalOf(files, o) !in st.written
    requires copy(o) == Ok(items) && |items| == 3
    ensures Matches(GroupState(st.written + [FinalOf(files, o)], st.out + items), files, os + [o], copy)
  {
    var fs, nk := Finals(files, os), FinalOf(files, o);
    FinalsSnoc(files, os, o);
    DedupSnocNew(fs, nk);
    TriplesAdd(st.written, st.out, fs, os, copy, nk, o, items);
  }

  lemma ResourceStepMatches(st: GroupState, files: seq<InputFile>, inputs: seq<seq<Rec>>, os: seq<Occ>, i: nat, k: ResourceKey)
    requires i < |files| && i < |inputs| && k in files[i].filePos
    requires Matches(st, files, os, CopyOf(files, inputs))
    ensures var r := ResourceStep(st, files[i], inputs[i], k);
            r.Ok? ==> Matches(r.value, files, os + (if k.objType == FormMap then [] else [Occ(i, k)]), CopyOf(files, inputs))
  {
    if k.objType == FormMap {
      assert os + [] == os;
    } else {
      var o := Occ(i, k);
      assert FinalOf(files, o) == FinalKey(files[i], k);
      if FinalOf(files, o) in st.written {
        MatchesSkip(st, files, os, o, CopyOf(files, inputs));
      } else {
        var c := CopyResource(inputs[i], files[i].filePos[k], NewName(files[i], k));
        if c.Ok? {
          assert CopyOf(files, inputs)(o) == c;
          MatchesAdd(st, files, os, o, c.value, CopyOf(files, inputs));
        }
      }
    }
  }

  /** The loop over the keys `ks` of file `i` visits the occurrences FileOccs(i, ks). */
  lemma {:induction false} ResourcesFromMatches(st: GroupState, files: seq<InputFile>, inputs: seq<seq<Rec>>, os: seq<Occ>, i: nat, ks: seq<ResourceKey>)
    requires i < |files| && i < |inputs| && (forall k :: k in ks ==> k in files[i].filePos)
    requires Matches(st, files, os, CopyOf(files, inputs))
    ensures var r := ResourcesFrom(st, files[i], inputs[i], ks);
            r.Ok? ==> Matches(r.value, files, os + FileOccs(i, ks), CopyOf(files, inputs))
    decreases |ks|
  {
    if |ks| == 0 {
      assert os + FileOccs(i, ks) == os;
    } else {
      var init, last := ks[..|ks| - 1], ks[|ks| - 1];
      assert forall k :: k in init ==> k in ks;
      ResourcesFromMatches(st, files, inputs, os, i, init);
      var r0 := ResourcesFrom(st, files[i], inputs[i], init);
      if r0.Ok? {
        var os0 := os + FileOccs(i, init);
        ResourceStepMatches(r0.value, files, inputs, os0, i, last);
        var tail := if last.objType == FormMap then [] else [Occ(i, last)];
        assert FileOccs(i, ks) == FileOccs(i, init) + tail;
        AppendAssoc(os, FileOccs(i, init), tail);
      }
    }
  }

  /** The loop over the first `m` files visits their occurrences in order. */
  lemma {:induction false} FilesResourcesMatches(files: seq<InputFile>, inputs: seq<seq<Rec>>, m: nat)
    requires |inputs| == |files| && AllConsistent(files) && m <= |files|
    ensures AllConsistent(files[..m])
    ensures var r := FilesResources(GroupState([], []), files[..m], inputs[..m]);
            r.Ok? ==> Matches(r.value, files, Occurrences(files[..m]), CopyOf(files, inputs))
    decreases m
  {
    AllConsistentPrefix(files, m);
    if m == 0 {
      assert Occurrences(files[..m]) == [];
      assert Finals(files, []) == [];
    } else {
      var n := m - 1;
      assert files[..m][..n] == files[..n] && inputs[..m][..n] == inputs[..n];
      FilesResourcesMatches(files, inputs, n);
      var r0 := FilesResources(GroupState([], []), files[..n], inputs[..n]);
      if r0.Ok? {
        ConsistentFile(files, n);
        ResourcesFromMatches(r0.value, files, inputs, Occurrences(files[..n]), n, files[n].resources);
        assert Occurrences(files[..m]) == Occurrences(files[..n]) + FileOccs(n, files[n].resources);
      }
    }
  }

  /**
   * First writer wins: the resource group writes the final keys of all
   * resources, file by file and each file's in encounter order, each key once
   * at its first listed occurrence; the n-th BRS, body, ERS triple is the
   * copy of the file's position entry for the key that occurrence names
   * (the entry of the file's last BRS of the key), renamed when it is renamed.
   */
  lemma ResourceGroupFirstWriter(files: seq<InputFile>, inputs: seq<seq<Rec>>)
    requires |inputs| == |files| && AllConsistent(files)
    ensures var r := FilesResources(GroupState([], []), files, inputs);
            r.Ok? ==>
              var os := Occurrences(files);
              && r.value.written == Dedup(Finals(files, os))
              && |r.value.out| == 3 * |r.value.written|
              && forall n :: 0 <= n < |r.value.written| ==>
                   && r.value.written[n] in Finals(files, os)
                   && CopiedAs(files, inputs, os[FirstIndex(Finals(files, os), r.value.written[n])], r.value.out[3 * n..3 * n + 3])
  {
    FilesResourcesMatches(files, inputs, |files|);
    assert files[..|files|] == files && inputs[..|inputs|] == inputs;
    var r := FilesResources(GroupState([], []), files, inputs);
    if r.Ok? {
      var os, st := Occurrences(files), r.value;
      forall n | 0 <= n < |st.written|
        ensures st.written[n] in Finals(files, os)
        ensures CopiedAs(files, inputs, os[FirstIndex(Finals(files, os), st.written[n])], st.out[3 * n..3 * n + 3])
      {
        MatchesAt(st, files, os, CopyOf(files, inputs), n);
        CopyOfCopied(files, inputs, os[FirstIndex(Finals(files, os), st.written[n])], st.out[3 * n..3 * n + 3]);
      }
    }
  }

  /** A successful copy from inside the file is the slice of the file it covers. */
  lemma CopiedSlice(bytes: seq<byte>, from: nat, left: int)
    requires Copied(bytes, from, left).Ok? && from <= |bytes|
    ensures 0 <= left && from + left <= |bytes|
    ensures Copied(bytes, from, left).value == bytes[from..from + left]
  {
  }

  /** The middle item of a copied resource is the copied body. */
  lemma CopyResourceBody(recs: seq<Rec>, res: Resource, newName: Option<string>)
    requires CopyResource(recs, res, newName).Ok?
    ensures ReadAt(recs, res.start).Ok?
    ensures var from := ReadAt(recs, res.start).value.1;
            var body := Copied(Bytes(recs), from, res.ersPos - from);
            && from <= |Bytes(recs)|
            && body.Ok? && CopyResource(recs, res, newName).value[1] == OutBytes(body.value)
  {
  }

  /** A resource body is copied verbatim: the bytes from just after its BRS up to its ERS. */
  lemma CopyBody(recs: seq<Rec>, res: Resource, newName: Option<string>)
    requires CopyResource(recs, res, newName).Ok?
    ensures ReadAt(recs, res.start).Ok?
    ensures var from := ReadAt(recs, res.start).value.1;
            && from <= res.ersPos <= |Bytes(recs)|
            && CopyResource(recs, res, newName).value[1] == OutBytes(Bytes(recs)[from..res.ersPos])
  {
    CopyResourceBody(recs, res, newName);
    var from := ReadAt(recs, res.start).value.1;
    CopiedSlice(Bytes(recs), from, res.ersPos - from);
  }

  // ---------------------------------------------------------------------------
  // The documents

  /** What the filter writes for one field: a modified field re-encoded, an untouched one as the bytes it was read from. */
  function Emit(file: InputFile, rec: Rec, encode: string -> seq<byte>): Result<Out, WriteError>
  {
    match PatchField(file, rec.field, encode)
    case Err(e) => Err(PatchFailed(e))
    case Ok(p) => if p.state == Modified then Ok(OutField(p.field)) else Ok(OutBytes(rec.raw))
  }

  /** The filter over the records `rs`, in order. */
  function Filter(file: InputFile, rs: seq<Rec>, encode: string -> seq<byte>): Result<seq<Out>, WriteError>
  {
    if |rs| == 0 then Ok([])
    else
      var init :- Filter(file, rs[..|rs| - 1], encode);
      var o :- Emit(file, rs[|rs| - 1], encode);
      Ok(init + [o])
  }

  /** The documents of one file: everything from its document start on. */
  function Documents(file: InputFile, recs: seq<Rec>, encode: string -> seq<byte>): Result<seq<Out>, WriteError>
  {
    match Boundary(recs, file.documentStart)
    case Some(i) => Filter(file, recs[i..], encode)
    case None => Err(NoFieldAt(file.documentStart))
  }

  /** writeDocuments: the documents of every file, appended in file order. */
  function AllDocuments(files: seq<InputFile>, inputs: seq<seq<Rec>>, encode: string -> seq<byte>): Result<seq<Out>, WriteError>
    requires |inputs| == |files|
  {
    if |files| == 0 then Ok([])
    else
      var n := |files| - 1;
      var init :- AllDocuments(files[..n], inputs[..n], encode);
      var docs :- Documents(files[n], inputs[n], encode);
      Ok(init + docs)
  }

  /** The items of a verbatim copy of `rs`. */
  function Verbatim(rs: seq<Rec>): (r: seq<Out>)
    ensures |r| == |rs| && forall j :: 0 <= j < |rs| ==> r[j] == OutBytes(rs[j].raw)
  {
    if |rs| == 0 then [] else Verbatim(rs[..|rs| - 1]) + [OutBytes(rs[|rs| - 1].raw)]
  }

  /** The filter writes one item per field, each either the field patched or its original bytes. */
  lemma {:induction false} FilterShape(file: InputFile, rs: seq<Rec>, encode: string -> seq<byte>)
    ensures var r := Filter(file, rs, encode);
            && (r.Ok? ==> |r.value| == |rs| && forall j :: 0 <= j < |rs| ==> Emit(file, rs[j], encode) == Ok(r.value[j]))
            && (r.Err? <==> exists j :: 0 <= j < |rs| && Emit(file, rs[j], encode).Err?)
  {
    if |rs| > 0 {
      var init := rs[..|rs| - 1];
      FilterShape(file, init, encode);
      assert forall j :: 0 <= j < |init| ==> init[j] == rs[j];
    }
  }

  /** A file in which nothing is renamed has its documents copied byte for byte. */
  lemma NothingRenamedVerbatim(file: InputFile, rs: seq<Rec>, encode: string -> seq<byte>)
    requires file.renamings == map[] && file.renameIMM == map[]
    ensures Filter(file, rs, encode).Ok? ==> Filter(file, rs, encode).value == Verbatim(rs)
  {
    FilterShape(file, rs, encode);
    var r := Filter(file, rs, encode);
    if r.Ok? {
      forall j | 0 <= j < |rs|
        ensures r.value[j] == OutBytes(rs[j].raw)
      {
        assert Emit(file, rs[j], encode) == Ok(r.value[j]);
        NothingRenamedUntouched(file, rs[j].field, encode);
      }
    }
  }

  /** The bytes of the items copied as raw bytes, in order. */
  function RawBytes(outs: seq<Out>): seq<byte>
  {
    if |outs| == 0 then []
    else RawBytes(outs[..|outs| - 1]) + (if outs[|outs| - 1].OutBytes? then outs[|outs| - 1].bytes else [])
  }

  /** The raw bytes of one more item: its bytes, if it is a copy, appended. */
  lemma RawBytesSnoc(outs: seq<Out>, o: Out)
    ensures RawBytes(outs + [o]) == RawBytes(outs) + (if o.OutBytes? then o.bytes else [])
  {
    assert (outs + [o])[..|outs|] == outs;
  }

  /** A verbatim copy of a non-empty run ends with the last record's bytes. */
  lemma VerbatimLast(rs: seq<Rec>)
    requires |rs| > 0
    ensures Verbatim(rs) == Verbatim(rs[..|rs| - 1]) + [OutBytes(rs[|rs| - 1].raw)]
  {
  }

  /** Dropping a prefix of the first part of a concatenation. */
  lemma DropAppend<T>(a: seq<T>, b: seq<T>, o: nat)
    requires o <= |a|
    ensures (a + b)[o..] == a[o..] + b
  {
  }

  /** Concatenated, the raw bytes of records `i..` are the file from offset `Offset(recs, i)` on. */
  lemma {:induction false} VerbatimBytes(recs: seq<Rec>, i: nat)
    requires i <= |recs|
    ensures Offset(recs, i) <= |Bytes(recs)|
    ensures RawBytes(Verbatim(recs[i..])) == Bytes(recs)[Offset(recs, i)..]
    decreases |recs|
  {
    BytesPrefix(recs, i, |recs|);
    assert recs[..|recs|] == recs;
    if i < |recs| {
      var n := |recs| - 1;
      var pre := recs[..n];
      assert pre[..i] == recs[..i];
      assert recs[i..][..|recs[i..]| - 1] == pre[i..];
      var o := Offset(recs, i);
      calc {
        RawBytes(Verbatim(recs[i..]));
        { VerbatimLast(recs[i..]); }
        RawBytes(Verbatim(pre[i..]) + [OutBytes(recs[n].raw)]);
        { RawBytesSnoc(Verbatim(pre[i..]), OutBytes(recs[n].raw)); }
        RawBytes(Verbatim(pre[i..])) + recs[n].raw;
        { VerbatimBytes(pre, i); }
        Bytes(pre)[o..] + recs[n].raw;
        { DropAppend(Bytes(pre), recs[n].raw, o); }
        (Bytes(pre) + recs[n].raw)[o..];
        { BytesLast(recs); }
        Bytes(recs)[o..];
      }
    } else {
      assert recs[i..] == [];
    }
  }

  // ---------------------------------------------------------------------------
  // The loops of writeResourceGroup and writeDocuments

  lemma {:induction false} ResourcesFromPrefixErr(st: GroupState, file: InputFile, recs: seq<Rec>, ks: seq<ResourceKey>, n: nat)
    requires (forall k :: k in ks ==> k in file.filePos) && n <= |ks|
    requires ResourcesFrom(st, file, recs, ks[..n]).Err?
    ensures ResourcesFrom(st, file, recs, ks) == ResourcesFrom(st, file, recs, ks[..n])
    decreases |ks| - n
  {
    if n < |ks| {
      assert ks[..n + 1][..n] == ks[..n];
      ResourcesFromPrefixErr(st, file, recs, ks, n + 1);
    } else {
      assert ks[..n] == ks;
    }
  }

  /** The loop over one file's resources in writeResourceGroup. */
  method WriteFileResources(st0: GroupState, file: InputFile, recs: seq<Rec>) returns (r: Result<GroupState, WriteError>)
    requires forall k :: k in file.resources ==> k in file.filePos
    ensures r == ResourcesFrom(st0, file, recs, file.resources)
  {
    var ks := file.resources;
    var st := st0;
    var i := 0;
    while i < |ks|
      invariant 0 <= i <= |ks|
      invariant ResourcesFrom(st0, file, recs, ks[..i]) == Ok(st)
    {
      assert ks[..i + 1][..i] == ks[..i];
      var k := ks[i];
      assert ResourcesFrom(st0, file, recs, ks[..i + 1]) == ResourceStep(st, file, recs, k);
      if k.objType != FormMap {
        var newName: Option<string> := None;
        var nk := k;
        if k in file.renamings {
          newName := Some(file.renamings[k]);
          nk := ResourceKey(k.objType, file.renamings[k], k.objId);
        }
        if nk !in st.written {
          var items := WriteResource(recs, file.filePos[k], newName);
          if items.Err? {
            ResourcesFromPrefixErr(st0, file, recs, ks, i + 1);
            return Err(items.error);
          }
          st := GroupState(st.written + [nk], st.out + items.value);
        }
      }
      i := i + 1;
    }
    assert ks[..i] == ks;
    return Ok(st);
  }

  lemma {:induction false} FilterPrefixErr(file: InputFile, rs: seq<Rec>, encode: string -> seq<byte>, n: nat)
    requires n <= |rs| && Filter(file, rs[..n], encode).Err?
    ensures Filter(file, rs, encode) == Filter(file, rs[..n], encode)
    decreases |rs| - n
  {
    if n < |rs| {
      assert rs[..n + 1][..n] == rs[..n];
      FilterPrefixErr(file, rs, encode, n + 1);
    } else {
      assert rs[..n] == rs;
    }
  }

  /** The documents of one file: positioned at the document start, every field through the filter. */
  method FilterDocuments(file: InputFile, recs: seq<Rec>, encode: string -> seq<byte>) returns (r: Result<seq<Out>, WriteError>)
    ensures r == Documents(file, recs, encode)
  {
    var b := Boundary(recs, file.documentStart);
    if b.None? {
      return Err(NoFieldAt(file.documentStart));
    }
    var rs := recs[b.value..];
    var out: seq<Out> := [];
    var j := 0;
    while j < |rs|
      invariant 0 <= j <= |rs|
      invariant Filter(file, rs[..j], encode) == Ok(out)
    {
      assert rs[..j + 1][..j] == rs[..j];
      assert Filter(file, rs[..j + 1], encode) == (var o :- Emit(file, rs[j], encode); Ok(out + [o]));
      var p := Patch(file, rs[j].field, encode);
      if p.Err? {
        FilterPrefixErr(file, rs, encode, j + 1);
        return Err(PatchFailed(p.error));
      }
      if p.value.state == Modified {
        out := out + [OutField(p.value.field)];
      } else {
        out := out + [OutBytes(rs[j].raw)];
      }
      j := j + 1;
    }
    assert rs[..j] == rs;
    return Ok(out);
  }
}
