/**
 * Display IDs (`n001`, `t012`, `p003`, `s010`, `task-004`): a fixed prefix
 * followed by a decimal number. A new ID is one more than the largest number
 * found behind the prefix in the existing IDs, zero-padded to three digits
 * below 1000. A number is found with the regular expression `<prefix>(\d+)`
 * (leftmost match) and read with `strconv.Atoi`, which refuses values above
 * the 64-bit range.
 */
module DisplayIds {
  import opened Wrappers
  import opened Text

  const MaxInt64: nat := 9223372036854775807

  /** The end of the run of digits that starts at `i`. */
  function DigitRunEnd(s: string, i: nat): (e: nat)
    requires i <= |s|
    ensures i <= e <= |s| && AllDigits(s[i..e])
    ensures e == |s| || !IsDigit(s[e])
    decreases |s| - i
  {
    if i < |s| && IsDigit(s[i]) then
      var e := DigitRunEnd(s, i + 1);
      assert s[i..e] == [s[i]] + s[i + 1..e];
      e
    else i
  }

  /** `<prefix>(\d+)` matches at position `i`. */
  predicate MatchesAt(s: string, prefix: string, i: nat)
  {
    OccursAt(s, prefix, i) && i + |prefix| < |s| && IsDigit(s[i + |prefix|])
  }

  /** The leftmost match at or after `from`. */
  function FirstMatch(s: string, prefix: string, from: nat): (r: Option<nat>)
    ensures r.Some? ==> from <= r.value && MatchesAt(s, prefix, r.value)
    ensures r.Some? ==> forall j :: from <= j < r.value ==> !MatchesAt(s, prefix, j)
    ensures r.None? ==> forall j :: from <= j ==> !MatchesAt(s, prefix, j)
    decreases |s| - from
  {
    if from >= |s| then None
    else if MatchesAt(s, prefix, from) then Some(from)
    else FirstMatch(s, prefix, from + 1)
  }

  /** The number an ID carries behind `prefix`, if the pattern matches and `Atoi` accepts it. */
  function Suffix(prefix: string, id: string): Option<nat>
  {
    match FirstMatch(id, prefix, 0)
    case None => None
    case Some(i) =>
      var start := i + |prefix|;
      var v := DigitsValue(id[start..DigitRunEnd(id, start)]);
      if v <= MaxInt64 then Some(v) else None
  }

  /** The largest number carried by any of `ids`, or 0. */
  function MaxSuffix(prefix: string, ids: seq<string>): (m: nat)
    ensures forall i :: 0 <= i < |ids| && Suffix(prefix, ids[i]).Some? ==> Suffix(prefix, ids[i]).value <= m
    ensures m == 0 || exists i :: 0 <= i < |ids| && Suffix(prefix, ids[i]) == Some(m)
  {
    if ids == [] then 0
    else
      var rest := ids[..|ids| - 1];
      var m := MaxSuffix(prefix, rest);
      assert forall i :: 0 <= i < |rest| ==> Suffix(prefix, rest[i]) == Suffix(prefix, ids[i]);
      match Suffix(prefix, ids[|ids| - 1])
      case None => m
      case Some(v) => if v > m then v else m
  }

  /** `fmt.Sprintf("<prefix>%03d", k)` below 1000, `fmt.Sprintf("<prefix>%d", k)` from 1000 on. */
  function FormatId(prefix: string, k: nat): string
  {
    if k < 1000 then prefix + ZeroPadded(k, 3) else prefix + DecimalString(k)
  }

  /** The ID the allocator hands out next. */
  function NextId(prefix: string, ids: seq<string>): string
  {
    FormatId(prefix, MaxSuffix(prefix, ids) + 1)
  }

  /** The allocation loop: scan every ID once, keeping the largest number seen. */
  method NextIdScan(prefix: string, ids: seq<string>) returns (id: string)
    ensures id == NextId(prefix, ids)
  {
    var maxSeq := 0;
    var i := 0;
    while i < |ids|
      invariant 0 <= i <= |ids|
      invariant maxSeq == MaxSuffix(prefix, ids[..i])
    {
      assert ids[..i + 1][..i] == ids[..i];
      match Suffix(prefix, ids[i]) {
        case Some(v) =>
          if v > maxSeq {
            maxSeq := v;
          }
        case None =>
      }
      i := i + 1;
    }
    assert ids[..i] == ids;
    var next := maxSeq + 1;
    if next < 1000 {
      id := prefix + ZeroPadded(next, 3);
    } else {
      id := prefix + DecimalString(next);
    }
  }

  /** The digits of a formatted ID, whichever branch of the format produced them. */
  lemma FormatIdDigits(prefix: string, k: nat)
    ensures FormatId(prefix, k) == prefix + ZeroPadded(k, 3)
    ensures |ZeroPadded(k, 3)| >= 3
    ensures k < 1000 ==> |ZeroPadded(k, 3)| == 3
  {
    DecimalStringWidth(k);
  }

  /** Reading back a formatted ID gives its number, as long as `Atoi` can hold it. */
  lemma SuffixOfFormat(prefix: string, k: nat)
    ensures Suffix(prefix, FormatId(prefix, k)) == if k <= MaxInt64 then Some(k) else None
  {
    FormatIdDigits(prefix, k);
    var id := FormatId(prefix, k);
    var digits := ZeroPadded(k, 3);
    assert id[..|prefix|] == prefix;
    assert MatchesAt(id, prefix, 0);
    assert FirstMatch(id, prefix, 0) == Some(0);
    assert AllDigits(id[|prefix|..]);
    DigitRunToEnd(id, |prefix|);
    assert id[|prefix|..|id|] == digits;
    ZeroPaddedValue(k, 3);
  }

  lemma {:induction false} DigitRunToEnd(s: string, i: nat)
    requires i <= |s| && AllDigits(s[i..])
    ensures DigitRunEnd(s, i) == |s|
    decreases |s| - i
  {
    if i < |s| {
      assert IsDigit(s[i..][0]);
      assert s[i + 1..] == s[i..][1..];
      DigitRunToEnd(s, i + 1);
    }
  }

  /** A freshly allocated ID differs from every existing one (below the 64-bit limit). */
  lemma NextIdFresh(prefix: string, ids: seq<string>)
    requires MaxSuffix(prefix, ids) < MaxInt64
    ensures NextId(prefix, ids) !in ids
  {
    var k := MaxSuffix(prefix, ids) + 1;
    SuffixOfFormat(prefix, k);
    forall i | 0 <= i < |ids|
      ensures ids[i] != NextId(prefix, ids)
    {
      if Suffix(prefix, ids[i]).Some? {
        assert Suffix(prefix, ids[i]).value < k;
      }
    }
  }

  /** Allocating twice in a row gives consecutive numbers: the IDs stay dense and increasing. */
  lemma NextIdAdvances(prefix: string, ids: seq<string>)
    requires MaxSuffix(prefix, ids) < MaxInt64
    ensures MaxSuffix(prefix, ids + [NextId(prefix, ids)]) == MaxSuffix(prefix, ids) + 1
  {
    var all := ids + [NextId(prefix, ids)];
    assert all[..|all| - 1] == ids;
    SuffixOfFormat(prefix, MaxSuffix(prefix, ids) + 1);
  }

  /** The first ID of an empty collection. */
  lemma FirstId(prefix: string)
    ensures NextId(prefix, []) == prefix + "001"
  {
    assert DecimalString(1) == "1";
    assert Zeros(2) == "00";
  }
}
