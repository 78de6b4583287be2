/**
 * The App Store version comparator: a version string is split on '.', each
 * piece is parsed as a machine integer (pieces that do not parse are dropped),
 * and two component lists are compared field by field after padding the
 * shorter one with zeros. The network lookup that yields the store version is
 * not modelled; its outcome enters as an `Option<string>`.
 */
module StoreVersion {
  import opened Wrappers

  /** Which version is newer, and in which field the two first differ. */
  datatype VersionDifference =
    | MajorHigherInStore
    | MinorHigherInStore
    | PatchHigherInStore
    | MajorHigherInCurrent
    | MinorHigherInCurrent
    | PatchHigherInCurrent
    | Equal

  // ---------------------------------------------------------------------------
  // Splitting on '.'
  // ---------------------------------------------------------------------------

  /** The pieces joined back together with '.' between them. */
  function Join(pieces: seq<string>): string
    requires |pieces| >= 1
  {
    if |pieces| == 1 then pieces[0] else pieces[0] + "." + Join(pieces[1..])
  }

  /** Every piece of `s` between separators, empty pieces included. */
  function Pieces(s: string): (r: seq<string>)
    ensures |r| >= 1
  {
    if s == [] then [""]
    else
      var rest := Pieces(s[1..]);
      if s[0] == '.' then [""] + rest else [[s[0]] + rest[0]] + rest[1..]
  }

  /** The pieces are dot-free and join back to the string. */
  lemma {:induction false} PiecesJoin(s: string)
    ensures forall i :: 0 <= i < |Pieces(s)| ==> '.' !in Pieces(s)[i]
    ensures Join(Pieces(s)) == s
  {
    if s != [] {
      PiecesJoin(s[1..]);
      var rest := Pieces(s[1..]);
      var r := Pieces(s);
      if s[0] == '.' {
        assert r == [""] + rest;
        assert r[1..] == rest;
        assert Join(r) == "" + "." + Join(rest);
      } else {
        assert r == [[s[0]] + rest[0]] + rest[1..];
        assert r[1..] == rest[1..];
        if |rest| > 1 {
          assert Join(rest) == rest[0] + "." + Join(rest[1..]);
          assert Join(r) == ([s[0]] + rest[0]) + "." + Join(rest[1..]);
        }
        assert s == [s[0]] + s[1..];
      }
    }
  }

  /** The non-empty pieces of `ps`, in order. */
  function NonEmpty(ps: seq<string>): (r: seq<string>)
    ensures |r| <= |ps|
    ensures forall i :: 0 <= i < |r| ==> r[i] != ""
  {
    if ps == [] then []
    else (if ps[0] == "" then [] else [ps[0]]) + NonEmpty(ps[1..])
  }

  /** Swift's `split(separator: ".")`, which omits empty subsequences. */
  function Split(s: string): seq<string>
  {
    NonEmpty(Pieces(s))
  }

  // ---------------------------------------------------------------------------
  // Swift's `Int(String)` on a 64-bit platform
  // ---------------------------------------------------------------------------

  const IntMin: int := -0x8000_0000_0000_0000
  const IntMax: int := 0x7fff_ffff_ffff_ffff

  predicate IsDigit(c: char) { '0' <= c <= '9' }

  predicate AllDigits(s: string) { forall i :: 0 <= i < |s| ==> IsDigit(s[i]) }

  function DigitValue(c: char): nat
    requires IsDigit(c)
  {
    (c as int) - ('0' as int)
  }

  function DigitChar(d: nat): char
    requires d < 10
  {
    (('0' as int) + d) as char
  }

  /** The value of a string of decimal digits, most significant first. */
  function DecimalValue(s: string): nat
    requires AllDigits(s)
  {
    if s == [] then 0 else DecimalValue(s[..|s| - 1]) * 10 + DigitValue(s[|s| - 1])
  }

  /** The digits of a literal: what follows an optional leading sign. */
  function Unsigned(p: string): string
  {
    if |p| > 0 && (p[0] == '+' || p[0] == '-') then p[1..] else p
  }

  /** The literal `Int(String)` accepts: an optional sign then at least one digit. */
  predicate IsIntLiteral(p: string)
  {
    |Unsigned(p)| > 0 && AllDigits(Unsigned(p))
  }

  /** The value of a literal accepted by `IsIntLiteral`, before the range check. */
  function LiteralValue(p: string): int
    requires IsIntLiteral(p)
  {
    if p[0] == '-' then -(DecimalValue(p[1..]) as int)
    else if p[0] == '+' then DecimalValue(p[1..])
    else DecimalValue(p)
  }

  /**
   * Swift's `Int(_:)` on a piece: the value of a well-formed decimal literal
   * that fits in a 64-bit `Int`, and nothing otherwise.
   */
  function ParseInt(p: string): (r: Option<int>)
    ensures r.Some? <==> IsIntLiteral(p) && IntMin <= LiteralValue(p) <= IntMax
    ensures r.Some? ==> r.value == LiteralValue(p)
  {
    if !IsIntLiteral(p) then None
    else
      var v := LiteralValue(p);
      if IntMin <= v <= IntMax then Some(v) else None
  }

  /** The canonical decimal spelling of a natural number. */
  function Decimal(n: nat): (s: string)
    ensures |s| > 0 && AllDigits(s)
  {
    if n < 10 then [DigitChar(n)] else Decimal(n / 10) + [DigitChar(n % 10)]
  }

  /** The canonical spelling of an integer, with a '-' before negatives. */
  function Show(n: int): string
  {
    if n < 0 then "-" + Decimal(-n) else Decimal(n)
  }

  lemma {:induction false} DecimalValueOfDecimal(n: nat)
    ensures DecimalValue(Decimal(n)) == n
  {
    var s := Decimal(n);
    if n >= 10 {
      DecimalValueOfDecimal(n / 10);
      assert s[..|s| - 1] == Decimal(n / 10);
    }
  }

  /** Parsing inverts printing for every value a 64-bit `Int` can hold. */
  lemma ParseShow(n: int)
    requires IntMin <= n <= IntMax
    ensures ParseInt(Show(n)) == Some(n)
  {
    var s := Show(n);
    if n < 0 {
      DecimalValueOfDecimal(-n);
      assert s[1..] == Decimal(-n);
    } else {
      DecimalValueOfDecimal(n);
      assert IsDigit(s[0]);
    }
  }

  /** A string of digits worth nothing is all zeros. */
  lemma {:induction false} ZeroValueIsZeros(d: string)
    requires AllDigits(d) && DecimalValue(d) == 0
    ensures forall i :: 0 <= i < |d| ==> d[i] == '0'
  {
    if d != [] {
      var front := d[..|d| - 1];
      assert AllDigits(front);
      ZeroValueIsZeros(front);
      assert forall i :: 0 <= i < |d| - 1 ==> d[i] == front[i];
    }
  }

  /**
   * Any digit string is the canonical spelling of its value with some
   * zeros in front.
   */
  lemma {:induction false} DigitsSpelling(d: string)
    requires |d| > 0 && AllDigits(d)
    ensures var m := |Decimal(DecimalValue(d))|;
      && m <= |d|
      && d[|d| - m..] == Decimal(DecimalValue(d))
      && forall i :: 0 <= i < |d| - m ==> d[i] == '0'
  {
    var front, last := d[..|d| - 1], d[|d| - 1];
    assert d == front + [last];
    assert AllDigits(front);
    var a, b := DecimalValue(front), DigitValue(last);
    assert DigitChar(b) == last;
    if a == 0 {
      ZeroValueIsZeros(front);
      LastDigitOnly(front, last);
    } else {
      DigitsSpelling(front);
      AppendDigit(a, b);
      SpellingAppend(front, last, Decimal(a));
    }
  }

  /** Zeros followed by one digit spell that digit. */
  lemma LastDigitOnly(front: string, last: char)
    requires IsDigit(last) && forall i :: 0 <= i < |front| ==> front[i] == '0'
    ensures var d := front + [last];
      AllDigits(d) && DecimalValue(d) == DigitValue(last) && Decimal(DigitValue(last)) == [last]
  {
    var d := front + [last];
    assert d[..|d| - 1] == front;
    ZerosWorthNothing(front);
  }

  lemma {:induction false} ZerosWorthNothing(z: string)
    requires forall i :: 0 <= i < |z| ==> z[i] == '0'
    ensures AllDigits(z) && DecimalValue(z) == 0
  {
    if z != [] {
      ZerosWorthNothing(z[..|z| - 1]);
    }
  }

  /** Appending a digit to a positive value appends it to the canonical spelling. */
  lemma AppendDigit(a: nat, b: nat)
    requires 0 < a && b < 10
    ensures Decimal(a * 10 + b) == Decimal(a) + [DigitChar(b)]
  {
    var n := a * 10 + b;
    assert n / 10 == a && n % 10 == b;
  }

  /** A spelling that ends `front` still ends `front + [last]`, one longer. */
  lemma SpellingAppend(front: string, last: char, t: string)
    requires |t| <= |front| && front[|front| - |t|..] == t
    requires forall i :: 0 <= i < |front| - |t| ==> front[i] == '0'
    ensures var d := front + [last]; var m := |t| + 1;
      && d[|d| - m..] == t + [last]
      && forall i :: 0 <= i < |d| - m ==> d[i] == '0'
  {
    var d := front + [last];
    assert d[|d| - (|t| + 1)..] == front[|front| - |t|..] + [last];
  }

  /**
   * The other half of the round trip with `ParseShow`: a piece `Int(_:)`
   * accepts is the canonical spelling of the value it yields, up to leading
   * zeros and a sign that agrees with the value ('-' only before a value of
   * at most zero, '+' or nothing only before one of at least zero).
   */
  lemma ParseIntSpelling(p: string)
    requires ParseInt(p).Some?
    ensures var v := ParseInt(p).value;
      var digits := Unsigned(p);
      var m := |Decimal(if v < 0 then -v else v)|;
      && m <= |digits|
      && digits[|digits| - m..] == Decimal(if v < 0 then -v else v)
      && (forall i :: 0 <= i < |digits| - m ==> digits[i] == '0')
      && (p[0] == '-' ==> v <= 0)
      && (p[0] != '-' ==> v >= 0)
  {
    DigitsSpelling(Unsigned(p));
  }

  // ---------------------------------------------------------------------------
  // Components: split, then keep what `Int(_:)` accepts
  // ---------------------------------------------------------------------------

  /** Swift's `compactMap`: the present results of `f`, in order. */
  function CompactMap<T, U>(xs: seq<T>, f: T -> Option<U>): (r: seq<U>)
    ensures |r| <= |xs|
  {
    if xs == [] then []
    else (match f(xs[0]) case Some(v) => [v] case None => []) + CompactMap(xs[1..], f)
  }

  /** The numeric components of a version string: `split(separator: ".").compactMap { Int($0) }`. */
  function Components(version: string): seq<int>
  {
    CompactMap(Split(version), ParseInt)
  }

  lemma {:induction false} PiecesAppend(s: string, t: string)
    ensures Pieces(s + "." + t) == Pieces(s) + Pieces(t)
  {
    var u := s + "." + t;
    if s == [] {
      assert u == "." + t;
      assert u[1..] == t;
    } else {
      assert u[0] == s[0] && u[1..] == s[1..] + "." + t;
      PiecesAppend(s[1..], t);
      if s[0] != '.' {
        PrependToFirst([s[0]], Pieces(s[1..]), Pieces(t));
      } else {
        assert [""] + (Pieces(s[1..]) + Pieces(t)) == ([""] + Pieces(s[1..])) + Pieces(t);
      }
    }
  }

  /** Extending the first piece commutes with appending more pieces. */
  lemma PrependToFirst(c: string, ps: seq<string>, qs: seq<string>)
    requires |ps| >= 1
    ensures [c + (ps + qs)[0]] + (ps + qs)[1..] == ([c + ps[0]] + ps[1..]) + qs
  {
    assert (ps + qs)[1..] == ps[1..] + qs;
  }

  lemma {:induction false} NonEmptyAppend(ps: seq<string>, qs: seq<string>)
    ensures NonEmpty(ps + qs) == NonEmpty(ps) + NonEmpty(qs)
  {
    if ps == [] {
      assert ps + qs == qs;
    } else {
      var head := if ps[0] == "" then [] else [ps[0]];
      assert (ps + qs)[0] == ps[0];
      assert (ps + qs)[1..] == ps[1..] + qs;
      NonEmptyAppend(ps[1..], qs);
      calc {
        NonEmpty(ps + qs);
        head + NonEmpty(ps[1..] + qs);
        head + (NonEmpty(ps[1..]) + NonEmpty(qs));
        (head + NonEmpty(ps[1..])) + NonEmpty(qs);
      }
    }
  }

  lemma {:induction false} CompactMapAppend<T, U>(xs: seq<T>, ys: seq<T>, f: T -> Option<U>)
    ensures CompactMap(xs + ys, f) == CompactMap(xs, f) + CompactMap(ys, f)
  {
    if xs == [] {
      assert xs + ys == ys;
    } else {
      var all := xs + ys;
      assert all[0] == xs[0] && all[1..] == xs[1..] + ys;
      CompactMapAppend(xs[1..], ys, f);
    }
  }

  /** The components of two versions joined by '.' are the two component lists, concatenated. */
  lemma ComponentsAppend(s: string, t: string)
    ensures Components(s + "." + t) == Components(s) + Components(t)
  {
    PiecesAppend(s, t);
    NonEmptyAppend(Pieces(s), Pieces(t));
    CompactMapAppend(Split(s), Split(t), ParseInt);
  }

  /** Appending ".0" appends one zero component. */
  lemma ComponentsAppendZero(s: string)
    ensures Components(s + ".0") == Components(s) + [0]
  {
    ComponentsAppend(s, "0");
    assert s + ".0" == s + "." + "0";
    DigitComponent('0');
    assert "0" == ['0'];
  }

  // ---------------------------------------------------------------------------
  // The comparison
  // ---------------------------------------------------------------------------

  function Max(x: nat, y: nat): nat { if x < y then y else x }

  /** The i-th component, or 0 past the end: the zero padding of the shorter list. */
  function Padded(a: seq<int>, i: nat): int
  {
    if i < |a| then a[i] else 0
  }

  /** The first index at or after `i` where the padded lists differ, if any. */
  function FirstDifferenceFrom(a: seq<int>, b: seq<int>, i: nat): (r: Option<nat>)
    decreases Max(|a|, |b|) - i
    ensures r.Some? ==> i <= r.value < Max(|a|, |b|) && Padded(a, r.value) != Padded(b, r.value)
    ensures r.Some? ==> forall k: nat :: i <= k < r.value ==> Padded(a, k) == Padded(b, k)
    ensures r.None? <==> forall k: nat :: i <= k ==> Padded(a, k) == Padded(b, k)
  {
    if i >= Max(|a|, |b|) then None
    else if Padded(a, i) != Padded(b, i) then Some(i)
    else FirstDifferenceFrom(a, b, i + 1)
  }

  /** The tag for a first difference at index i: 0 is major, 1 minor, anything later patch. */
  function Tag(i: nat, storeHigher: bool): VersionDifference
  {
    if storeHigher then
      (if i == 0 then MajorHigherInStore else if i == 1 then MinorHigherInStore else PatchHigherInStore)
    else
      (if i == 0 then MajorHigherInCurrent else if i == 1 then MinorHigherInCurrent else PatchHigherInCurrent)
  }

  /** The specification of the comparison: decided by the first difference. */
  function Difference(store: seq<int>, current: seq<int>): VersionDifference
  {
    match FirstDifferenceFrom(store, current, 0)
    case None => Equal
    case Some(i) => Tag(i, Padded(store, i) > Padded(current, i))
  }

  /** The comparison of two version strings. */
  function VersionDifferenceOf(storeVersion: string, currentVersion: string): VersionDifference
  {
    Difference(Components(storeVersion), Components(currentVersion))
  }

  /** The same difference seen from the other side. */
  function Swapped(d: VersionDifference): VersionDifference
  {
    match d
    case MajorHigherInStore => MajorHigherInCurrent
    case MinorHigherInStore => MinorHigherInCurrent
    case PatchHigherInStore => PatchHigherInCurrent
    case MajorHigherInCurrent => MajorHigherInStore
    case MinorHigherInCurrent => MinorHigherInStore
    case PatchHigherInCurrent => PatchHigherInStore
    case Equal => Equal
  }

  /**
   * The comparison loop: scan both component lists, zero padded, and return
   * at the first index where they differ.
   */
  method CompareVersions(storeVersion: string, currentVersion: string) returns (d: VersionDifference)
    ensures d == VersionDifferenceOf(storeVersion, currentVersion)
  {
    var storeComponents := Components(storeVersion);
    var currentComponents := Components(currentVersion);
    var maxCount := Max(|storeComponents|, |currentComponents|);
    var i := 0;
    while i < maxCount
      invariant 0 <= i <= maxCount
      invariant forall k: nat :: k < i ==> Padded(storeComponents, k) == Padded(currentComponents, k)
    {
      var storeValue := if i < |storeComponents| then storeComponents[i] else 0;
      var currentValue := if i < |currentComponents| then currentComponents[i] else 0;
      if storeValue != currentValue {
        FirstDifferenceDecides(storeComponents, currentComponents, i);
      }
      if storeValue > currentValue {
        if i == 0 {
          return MajorHigherInStore;
        } else if i == 1 {
          return MinorHigherInStore;
        } else if i == 2 {
          return PatchHigherInStore;
        } else {
          return PatchHigherInStore;
        }
      } else if storeValue < currentValue {
        if i == 0 {
          return MajorHigherInCurrent;
        } else if i == 1 {
          return MinorHigherInCurrent;
        } else if i == 2 {
          return PatchHigherInCurrent;
        } else {
          return PatchHigherInCurrent;
        }
      }
      i := i + 1;
    }
    return Equal;
  }

  /**
   * Both `compareAppVersion` overloads: no store version gives no result,
   * otherwise the comparison of the store version with the bundle version.
   */
  method CompareAppVersion(fetched: Option<string>, bundleVersion: string) returns (result: Option<VersionDifference>)
    ensures result.None? <==> fetched.None?
    ensures fetched.Some? ==> result == Some(VersionDifferenceOf(fetched.value, bundleVersion))
    ensures fetched == Some(bundleVersion) ==> result == Some(Equal)
  {
    if fetched.Some? {
      var d := CompareVersions(fetched.value, bundleVersion);
      DifferenceReflexive(Components(bundleVersion));
      result := Some(d);
    } else {
      result := None;
    }
  }

  // ---------------------------------------------------------------------------
  // Properties of the comparison
  // ---------------------------------------------------------------------------

  /** The first difference, once found, decides the result and names its field. */
  lemma FirstDifferenceDecides(store: seq<int>, current: seq<int>, i: nat)
    requires Padded(store, i) != Padded(current, i)
    requires forall k: nat :: k < i ==> Padded(store, k) == Padded(current, k)
    ensures Difference(store, current) == Tag(i, Padded(store, i) > Padded(current, i))
    ensures i == 0 ==> Difference(store, current) in {MajorHigherInStore, MajorHigherInCurrent}
    ensures i == 1 ==> Difference(store, current) in {MinorHigherInStore, MinorHigherInCurrent}
    ensures i >= 2 ==> Difference(store, current) in {PatchHigherInStore, PatchHigherInCurrent}
  {
  }

  /** `Equal` exactly when the zero-padded lists agree at every index. */
  lemma EqualIffPaddedAgree(store: seq<int>, current: seq<int>)
    ensures Difference(store, current) == Equal <==> forall k: nat :: Padded(store, k) == Padded(current, k)
  {
    var r := FirstDifferenceFrom(store, current, 0);
    if r.Some? {
      var i := r.value;
      assert Padded(store, i) != Padded(current, i);
      assert Tag(i, Padded(store, i) > Padded(current, i)) != Equal;
    }
  }

  /** Every version compares `Equal` with itself. */
  lemma DifferenceReflexive(a: seq<int>)
    ensures Difference(a, a) == Equal
  {
    EqualIffPaddedAgree(a, a);
  }

  /** Comparing a version string with itself gives `Equal`. */
  lemma CompareSelf(version: string)
    ensures VersionDifferenceOf(version, version) == Equal
  {
    DifferenceReflexive(Components(version));
  }

  /** Swapping the arguments swaps "in store" and "in current" for the same field. */
  lemma DifferenceSwap(store: seq<int>, current: seq<int>)
    ensures Difference(current, store) == Swapped(Difference(store, current))
  {
    var r := FirstDifferenceFrom(store, current, 0);
    if r.Some? {
      FirstDifferenceDecides(current, store, r.value);
    } else {
      EqualIffPaddedAgree(store, current);
      EqualIffPaddedAgree(current, store);
    }
  }

  /** A trailing zero component changes nothing. */
  lemma TrailingZeroIgnored(store: seq<int>, current: seq<int>)
    ensures Difference(store + [0], current) == Difference(store, current)
    ensures Difference(current, store + [0]) == Difference(current, store)
  {
    forall k: nat ensures Padded(store + [0], k) == Padded(store, k) {
    }
    EqualIffPaddedAgree(store + [0], current);
    EqualIffPaddedAgree(store, current);
    EqualIffPaddedAgree(current, store + [0]);
    EqualIffPaddedAgree(current, store);
    var r := FirstDifferenceFrom(store, current, 0);
    if r.Some? {
      FirstDifferenceDecides(store + [0], current, r.value);
      FirstDifferenceDecides(current, store + [0], r.value);
      FirstDifferenceDecides(current, store, r.value);
    }
  }

  /** Appending ".0" to either version string never changes the result. */
  lemma AppendDotZeroIgnored(storeVersion: string, currentVersion: string)
    ensures VersionDifferenceOf(storeVersion + ".0", currentVersion) == VersionDifferenceOf(storeVersion, currentVersion)
    ensures VersionDifferenceOf(storeVersion, currentVersion + ".0") == VersionDifferenceOf(storeVersion, currentVersion)
  {
    ComponentsAppendZero(storeVersion);
    ComponentsAppendZero(currentVersion);
    TrailingZeroIgnored(Components(storeVersion), Components(currentVersion));
    TrailingZeroIgnored(Components(currentVersion), Components(storeVersion));
  }

  // ---------------------------------------------------------------------------
  // Worked comparisons
  // ---------------------------------------------------------------------------

  /** A dot-free piece on its own is one component, if `Int(_:)` accepts it. */
  lemma ComponentsOfPiece(p: string)
    requires '.' !in p && p != ""
    ensures ParseInt(p).Some? ==> Components(p) == [ParseInt(p).value]
    ensures ParseInt(p).None? ==> Components(p) == []
  {
    PiecesOfDotFree(p);
  }

  /** A string without '.' is a single piece. */
  lemma {:induction false} PiecesOfDotFree(p: string)
    requires '.' !in p
    ensures Pieces(p) == [p]
  {
    if p != [] {
      assert '.' !in p[1..];
      PiecesOfDotFree(p[1..]);
      assert [p[0]] + p[1..] == p;
    }
  }

  lemma DigitComponent(c: char)
    requires IsDigit(c)
    ensures Components([c]) == [DigitValue(c)]
  {
    var p := [c];
    ComponentsOfPiece(p);
    assert p[..|p| - 1] == [] && p[|p| - 1] == c;
    assert DecimalValue(p) == DigitValue(c);
    assert p[0] != '+' && p[0] != '-';
    assert LiteralValue(p) == DigitValue(c) <= 9;
    assert ParseInt(p) == Some(DigitValue(c));
  }

  /** A piece `Int(_:)` rejects is dropped: "1.x.3" has the components [1, 3]. */
  lemma ComponentsDropRejected()
    ensures Components("1.x.3") == [1, 3]
  {
    ComponentsAppend("1", "x.3");
    assert "1" + "." + "x.3" == "1.x.3";
    DigitComponent('1');
    assert "1" == ['1'];
    ComponentsRejectedFirst();
  }

  lemma ComponentsRejectedFirst()
    ensures Components("x.3") == [3]
  {
    ComponentsAppend("x", "3");
    assert "x" + "." + "3" == "x.3";
    DigitComponent('3');
    assert "3" == ['3'];
    ComponentsOfPiece("x");
    assert !IsIntLiteral("x");
  }

  lemma ComponentsOfTwo(c: char, d: char)
    requires IsDigit(c) && IsDigit(d)
    ensures Components([c] + "." + [d]) == [DigitValue(c), DigitValue(d)]
  {
    ComponentsAppend([c], [d]);
    DigitComponent(c);
    DigitComponent(d);
  }

  lemma ComponentsOfThree(c: char, d: char, e: char)
    requires IsDigit(c) && IsDigit(d) && IsDigit(e)
    ensures Components([c] + "." + [d] + "." + [e]) == [DigitValue(c), DigitValue(d), DigitValue(e)]
  {
    ComponentsAppend([c] + "." + [d], [e]);
    ComponentsOfTwo(c, d);
    DigitComponent(e);
  }

  lemma ComponentsOneTwenty()
    ensures Components("1.20") == [1, 20]
  {
    ComponentsAppend("1", "20");
    assert "1" + "." + "20" == "1.20";
    DigitComponent('1');
    assert "1" == ['1'];
    ComponentsOfPiece("20");
    ParseTwenty();
  }

  lemma ParseTwenty()
    ensures ParseInt("20") == Some(20)
  {
    var p := "20";
    assert IsIntLiteral(p);
    assert p[..|p| - 1] == "2" && p[|p| - 1] == '0';
    assert DecimalValue("2") == 2 by {
      assert "2"[..0] == "";
    }
    assert DecimalValue(p) == 20;
    assert LiteralValue(p) == 20;
  }

  /** A missing trailing component counts as zero: "1.2" equals "1.2.0". */
  lemma MissingComponentIsZero()
    ensures VersionDifferenceOf("1.2", "1.2.0") == Equal
  {
    ComponentsOfTwo('1', '2');
    assert "1.2" == ['1'] + "." + ['2'];
    ComponentsOfThree('1', '2', '0');
    assert "1.2.0" == ['1'] + "." + ['2'] + "." + ['0'];
    EqualIffPaddedAgree([1, 2], [1, 2, 0]);
  }

  /** The major field decides before any later one: "2.0" is newer than "1.9.9". */
  lemma MajorDecidesFirst()
    ensures VersionDifferenceOf("2.0", "1.9.9") == MajorHigherInStore
  {
    ComponentsOfTwo('2', '0');
    assert "2.0" == ['2'] + "." + ['0'];
    ComponentsOfThree('1', '9', '9');
    assert "1.9.9" == ['1'] + "." + ['9'] + "." + ['9'];
    FirstDifferenceDecides([2, 0], [1, 9, 9], 0);
  }

  /** Fields compare as numbers, not as text: minor 20 is above minor 3, from either side. */
  lemma FieldsCompareNumerically()
    ensures VersionDifferenceOf("1.20", "1.3") == MinorHigherInStore
    ensures VersionDifferenceOf("1.3", "1.20") == MinorHigherInCurrent
  {
    ComponentsOneTwenty();
    ComponentsOfTwo('1', '3');
    assert "1.3" == ['1'] + "." + ['3'];
    FirstDifferenceDecides([1, 20], [1, 3], 1);
    DifferenceSwap([1, 20], [1, 3]);
  }
}
