/**
 * Content-hash strings and the synthesis of fresh resource and medium-map names
 * (AfpCombine.getHash, getNewResourceName, getNewFormdefName).
 */
module Naming {
  import opened Wrappers
  import opened Afp

  // ---------------------------------------------------------------------------
  // Hex encoding of a digest
  // ---------------------------------------------------------------------------

  predicate IsHexDigit(c: char)
  {
    '0' <= c <= '9' || 'a' <= c <= 'f'
  }

  /** The lower-case hex digit of a value below 16. */
  function HexDigit(n: nat): (c: char)
    requires n < 16
    ensures IsHexDigit(c)
  {
    if n < 10 then ('0' as int + n) as char else ('a' as int + n - 10) as char
  }

  /** Integer.toHexString(0xFF & b): lower-case hex digits without a leading zero. */
  function HexByte(b: byte): (s: string)
    ensures 1 <= |s| <= 2
    ensures |s| == 1 <==> b < 16
    ensures forall i :: 0 <= i < |s| ==> IsHexDigit(s[i])
  {
    if b < 16 then [HexDigit(b)] else [HexDigit(b / 16), HexDigit(b % 16)]
  }

  /** The value of a lower-case hex digit. */
  function DigitValue(c: char): nat
  {
    if '0' <= c <= '9' then c as int - '0' as int
    else if 'a' <= c <= 'f' then c as int - 'a' as int + 10
    else 0
  }

  /** Reading back the one or two digits of a byte gives the byte. */
  lemma HexByteValue(b: byte)
    ensures var s := HexByte(b);
            if |s| == 1 then DigitValue(s[0]) == b
            else DigitValue(s[0]) * 16 + DigitValue(s[1]) == b
  {
    var s := HexByte(b);
    if b >= 16 {
      assert DigitValue(s[0]) == b / 16 && DigitValue(s[1]) == b % 16;
    }
  }

  /** The hash string of a digest: each byte's unpadded lower-case hex, concatenated. */
  function Hex(d: seq<byte>): string
  {
    if |d| == 0 then "" else Hex(d[..|d| - 1]) + HexByte(d[|d| - 1])
  }

  /** An n-byte digest gives between n and 2n lower-case hex digits. */
  lemma {:induction false} HexLength(d: seq<byte>)
    ensures |d| <= |Hex(d)| <= 2 * |d|
    ensures forall i :: 0 <= i < |Hex(d)| ==> IsHexDigit(Hex(d)[i])
  {
    if |d| > 0 {
      HexLength(d[..|d| - 1]);
    }
  }

  /** Because the digits are unpadded, two different digests can give the same hash string. */
  lemma HexNotInjective()
    ensures Hex([1, 35]) == Hex([18, 3]) == "123"
  {
    assert [1, 35][..1] == [1] && [18, 3][..1] == [18];
    assert Hex([1]) == "1" by { assert [1][..0] == []; }
    assert Hex([18]) == "12" by { assert [18][..0] == []; }
    assert HexByte(35) == "23";
    assert HexByte(3) == "3";
  }

  /** AfpCombine.getHash: the hex string of the digest of `bytes`. */
  method GetHash(digest: seq<byte> -> seq<byte>, bytes: seq<byte>) returns (h: string)
    ensures h == Hex(digest(bytes))
  {
    var md := digest(bytes);
    h := "";
    for i := 0 to |md|
      invariant h == Hex(md[..i])
    {
      assert md[..i + 1][..i] == md[..i];
      h := h + HexByte(md[i]);
    }
    assert md[..|md|] == md;
  }

  // ---------------------------------------------------------------------------
  // Candidate names
  // ---------------------------------------------------------------------------

  /** String.toUpperCase on the characters a name can hold. */
  function UpperChar(c: char): char
  {
    if 'a' <= c <= 'z' then (c as int - 32) as char else c
  }

  function Upper(s: string): (r: string)
    ensures |r| == |s|
    ensures forall i :: 0 <= i < |s| ==> r[i] == UpperChar(s[i])
  {
    seq(|s|, i requires 0 <= i < |s| => UpperChar(s[i]))
  }

  /** String.format("%06d", c): six decimal digits with leading zeros. */
  function Decimal(c: nat, width: nat): (s: string)
    ensures |s| == width
  {
    if width == 0 then "" else Decimal(c / 10, width - 1) + ["0123456789"[c % 10]]
  }

  /** The number a string of decimal digits denotes. */
  function DecimalValue(s: string): int
  {
    if |s| == 0 then 0 else DecimalValue(s[..|s| - 1]) * 10 + (s[|s| - 1] as int - '0' as int)
  }

  function Pow10(n: nat): nat
  {
    if n == 0 then 1 else 10 * Pow10(n - 1)
  }

  /** Below 10^width, the `width` characters are decimal digits that read back as the number. */
  lemma {:induction false} DecimalDigits(c: nat, width: nat)
    requires c < Pow10(width)
    ensures forall i :: 0 <= i < width ==> '0' <= Decimal(c, width)[i] <= '9'
    ensures DecimalValue(Decimal(c, width)) == c
    decreases width
  {
    if width > 0 {
      assert c / 10 < Pow10(width - 1);
      DecimalDigits(c / 10, width - 1);
      var s := Decimal(c, width);
      assert s[..width - 1] == Decimal(c / 10, width - 1);
      DigitChar(c % 10);
    }
  }

  lemma DigitChar(d: nat)
    requires d < 10
    ensures "0123456789"[d] as int == '0' as int + d
  {
  }

  /** The counter fallback runs over 0 .. 999998: the bound in the source is exclusive. */
  const CounterLimit: nat := 999999

  /** First two characters of the old name followed by each 6-character window of the hash, left to right. */
  function Windows(prefix: string, hash: string): (ws: seq<string>)
    ensures |ws| == if |hash| < 6 then 0 else |hash| - 5
    ensures forall i :: 0 <= i < |ws| ==> ws[i] == prefix + hash[i..i + 6]
  {
    if |hash| < 6 then [] else seq(|hash| - 5, i requires 0 <= i < |hash| - 5 => prefix + hash[i..i + 6])
  }

  /** First two characters of the old name followed by a six-digit counter. */
  function Counters(prefix: string): (cs: seq<string>)
    ensures |cs| == CounterLimit
    ensures forall i :: 0 <= i < CounterLimit ==> cs[i] == prefix + Decimal(i, 6)
  {
    seq(CounterLimit, i requires 0 <= i < CounterLimit => prefix + Decimal(i, 6))
  }

  /** A window candidate is exactly the prefix followed by a 6-character run of the hash. */
  lemma WindowsAreRuns(prefix: string, hash: string, w: string)
    requires |w| == 6
    ensures prefix + w in Windows(prefix, hash) <==> exists i :: 0 <= i <= |hash| && w <= hash[i..]
  {
    var ws := Windows(prefix, hash);
    if prefix + w in ws {
      var k :| 0 <= k < |ws| && ws[k] == prefix + w;
      assert (prefix + w)[|prefix|..] == w;
      assert ws[k][|prefix|..] == hash[k..k + 6];
      assert w <= hash[k..];
    }
    if exists i :: 0 <= i <= |hash| && w <= hash[i..] {
      var i :| 0 <= i <= |hash| && w <= hash[i..];
      assert hash[i..i + 6] == w;
      assert ws[i] == prefix + w;
    }
  }

  /** The counter candidates are pairwise distinct: the i-th is the prefix and six digits that read back as i. */
  lemma CountersDistinct(prefix: string, i: nat, j: nat)
    requires i < CounterLimit && j < CounterLimit
    ensures var c := Counters(prefix)[i];
            |c| == |prefix| + 6 && c[..|prefix|] == prefix && DecimalValue(c[|prefix|..]) == i &&
            forall n :: |prefix| <= n < |c| ==> '0' <= c[n] <= '9'
    ensures i != j ==> Counters(prefix)[i] != Counters(prefix)[j]
  {
    assert Pow10(6) == 1000000;
    DecimalDigits(i, 6);
    DecimalDigits(j, 6);
    var ci, cj := Counters(prefix)[i], Counters(prefix)[j];
    assert ci[|prefix|..] == Decimal(i, 6);
    assert cj[|prefix|..] == Decimal(j, 6);
  }

  /** All candidate names, in the order the search tries them. */
  function Candidates(oldName: string, hash: string): seq<string>
    requires |oldName| >= 2
  {
    Windows(oldName[..2], hash) + Counters(oldName[..2])
  }

  /** The index of the first candidate at or after `k` that is not in the registry. */
  function FirstFree(cands: seq<string>, registry: seq<string>, k: nat): (r: Option<nat>)
    requires k <= |cands|
    ensures r.Some? ==> k <= r.value < |cands| && cands[r.value] !in registry
    ensures r.Some? ==> forall j :: k <= j < r.value ==> cands[j] in registry
    ensures r.None? <==> forall j :: k <= j < |cands| ==> cands[j] in registry
    decreases |cands| - k
  {
    if k == |cands| then None
    else if cands[k] !in registry then Some(k)
    else FirstFree(cands, registry, k + 1)
  }

  datatype NameError = NameTooShort(oldName: string) | NamesExhausted(hash: string)

  /**
   * The name getNewResourceName / getNewFormdefName return for `oldName` and
   * `hash` against a name registry: the upper-cased form of the first candidate
   * that is not in the registry. Membership is tested before upper-casing.
   */
  function FreshName(oldName: string, hash: string, registry: seq<string>): (r: Result<string, NameError>)
  {
    if |oldName| < 2 then Err(NameTooShort(oldName))
    else
      var c := Candidates(oldName, hash);
      match FirstFree(c, registry, 0)
      case Some(k) => Ok(Upper(c[k]))
      case None => Err(NamesExhausted(hash))
  }

  /** What the search finds, case by case. */
  lemma FreshNameCases(oldName: string, hash: string, registry: seq<string>)
    ensures var r := FreshName(oldName, hash, registry);
            |oldName| < 2 ==> r == Err(NameTooShort(oldName))
    ensures var r := FreshName(oldName, hash, registry);
            r.Ok? ==>
              |oldName| >= 2 &&
              var c := Candidates(oldName, hash);
              exists k :: 0 <= k < |c| && c[k] !in registry && r.value == Upper(c[k]) &&
                          forall j :: 0 <= j < k ==> c[j] in registry
    ensures var r := FreshName(oldName, hash, registry);
            |oldName| >= 2 ==>
      (r.Err? <==> forall j :: 0 <= j < |Candidates(oldName, hash)| ==> Candidates(oldName, hash)[j] in registry)
    ensures var r := FreshName(oldName, hash, registry);
            |oldName| >= 2 && r.Err? ==> r.error == NamesExhausted(hash)
  {
  }

  /** Every fresh name keeps the first two characters of the old name, upper-cased. */
  lemma FreshNamePrefix(oldName: string, hash: string, registry: seq<string>)
    requires FreshName(oldName, hash, registry).Ok?
    ensures var n := FreshName(oldName, hash, registry).value;
            |n| >= 2 && n[..2] == Upper(oldName[..2])
  {
    FreshNameCases(oldName, hash, registry);
    var c := Candidates(oldName, hash);
    var k :| 0 <= k < |c| && FreshName(oldName, hash, registry).value == Upper(c[k]);
    var p := oldName[..2];
    assert |c[k]| >= 2 && c[k][..2] == p by {
      if k < |Windows(p, hash)| {
        assert c[k] == p + hash[k..k + 6];
      } else {
        assert c[k] == p + Decimal(k - |Windows(p, hash)|, 6);
      }
    }
  }

  /**
   * Because membership is tested before upper-casing, the name returned can
   * already be in the registry: here the registry holds "F1ABCDEF" and the
   * first candidate "F1abcdef" is upper-cased to exactly that name.
   */
  lemma FreshNameMayClash()
    ensures FreshName("F1", "abcdef", ["F1ABCDEF"]) == Ok("F1ABCDEF")
    ensures "F1ABCDEF" in ["F1ABCDEF"]
  {
    assert "F1"[..2] == "F1";
    var w := Windows("F1", "abcdef")[0];
    assert w == "F1abcdef";
    assert w != "F1ABCDEF" by { assert w[2] != "F1ABCDEF"[2]; }
    FreshNameAtWindow("F1", "abcdef", ["F1ABCDEF"], 0);
    assert Upper(w) == "F1ABCDEF";
  }

  /** The search ends at candidate `i` when it is the first one not in the registry. */
  lemma FreshNameAt(oldName: string, hash: string, registry: seq<string>, i: nat)
    requires |oldName| >= 2
    requires var c := Candidates(oldName, hash);
             i < |c| && c[i] !in registry && forall j :: 0 <= j < i ==> c[j] in registry
    ensures FreshName(oldName, hash, registry) == Ok(Upper(Candidates(oldName, hash)[i]))
  {
  }

  /** The search ends in the hash windows, at the first window not in the registry. */
  lemma FreshNameAtWindow(oldName: string, hash: string, registry: seq<string>, i: nat)
    requires |oldName| >= 2
    requires var ws := Windows(oldName[..2], hash);
             i < |ws| && ws[i] !in registry && forall j :: 0 <= j < i ==> ws[j] in registry
    ensures FreshName(oldName, hash, registry) == Ok(Upper(Windows(oldName[..2], hash)[i]))
  {
    var ws, c := Windows(oldName[..2], hash), Candidates(oldName, hash);
    assert forall j :: 0 <= j <= i ==> c[j] == ws[j];
    FreshNameAt(oldName, hash, registry, i);
  }

  /** Once every window is taken, the search ends at the first counter value not in the registry. */
  lemma FreshNameAtCounter(oldName: string, hash: string, registry: seq<string>, n: nat)
    requires |oldName| >= 2
    requires var ws, cs := Windows(oldName[..2], hash), Counters(oldName[..2]);
             && (forall j :: 0 <= j < |ws| ==> ws[j] in registry)
             && n < |cs| && cs[n] !in registry && (forall j :: 0 <= j < n ==> cs[j] in registry)
    ensures FreshName(oldName, hash, registry) == Ok(Upper(Counters(oldName[..2])[n]))
  {
    var ws, cs, c := Windows(oldName[..2], hash), Counters(oldName[..2]), Candidates(oldName, hash);
    assert forall j :: 0 <= j < |ws| ==> c[j] == ws[j];
    assert forall j :: |ws| <= j <= |ws| + n ==> c[j] == cs[j - |ws|];
    FreshNameAt(oldName, hash, registry, |ws| + n);
  }

  /** The search fails when every window and every counter value is in the registry. */
  lemma FreshNameNone(oldName: string, hash: string, registry: seq<string>)
    requires |oldName| >= 2
    requires var ws, cs := Windows(oldName[..2], hash), Counters(oldName[..2]);
             && (forall j :: 0 <= j < |ws| ==> ws[j] in registry)
             && (forall j :: 0 <= j < |cs| ==> cs[j] in registry)
    ensures FreshName(oldName, hash, registry) == Err(NamesExhausted(hash))
  {
    var ws, cs, c := Windows(oldName[..2], hash), Counters(oldName[..2]), Candidates(oldName, hash);
    assert forall j :: 0 <= j < |c| ==> c[j] in registry by {
      forall j | 0 <= j < |c|
        ensures c[j] in registry
      {
        if j < |ws| {
          assert c[j] == ws[j];
        } else {
          assert c[j] == cs[j - |ws|];
        }
      }
    }
  }

  /**
   * getNewResourceName / getNewFormdefName: try the hash windows, then the
   * counter, and return the first candidate that is free, upper-cased.
   */
  method GetNewName(oldName: string, hash: string, registry: seq<string>) returns (r: Result<string, NameError>)
    ensures r == FreshName(oldName, hash, registry)
  {
    if |oldName| < 2 {
      // substring(0, 2) throws before any candidate is tried
      return Err(NameTooShort(oldName));
    }
    var prefix := oldName[..2];
    ghost var ws, cs := Windows(prefix, hash), Counters(prefix);
    var i := 0;
    while i < |hash| - 5
      invariant 0 <= i <= |ws|
      invariant forall j :: 0 <= j < i ==> ws[j] in registry
    {
      var res := prefix + hash[i..i + 6];
      assert ws[i] == res;
      if res !in registry {
        FreshNameAtWindow(oldName, hash, registry, i);
        return Ok(Upper(res));
      }
      i := i + 1;
    }
    var n := 0;
    while n < CounterLimit
      invariant 0 <= n <= CounterLimit
      invariant forall j :: 0 <= j < n ==> cs[j] in registry
    {
      var res := prefix + Decimal(n, 6);
      assert cs[n] == res;
      if res !in registry {
        FreshNameAtCounter(oldName, hash, registry, n);
        return Ok(Upper(res));
      }
      n := n + 1;
    }
    FreshNameNone(oldName, hash, registry);
    return Err(NamesExhausted(hash));
  }
}
