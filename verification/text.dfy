/** Character and string operations the dashboard applies to user input and
    to the tags column: ASCII lower-casing, substring tests, digit filtering,
    base-10 parsing, and joining / splitting on the tag separator ", ". */
module Text {

  // ---------------------------------------------------------------------------
  // Lower-casing (ASCII only)
  // ---------------------------------------------------------------------------

  predicate IsUpper(c: char) {
    'A' <= c <= 'Z'
  }

  /** Lower-cases one ASCII letter; every other character is kept. */
  function LowerChar(c: char): (d: char)
    ensures !IsUpper(d)
    ensures IsUpper(c) ==> d as int == c as int + 32
    ensures !IsUpper(c) ==> d == c
  {
    if IsUpper(c) then (c as int + 32) as char else c
  }

  /** The query lower-casing of the analytics box, restricted to ASCII. */
  function Lower(s: string): (r: string)
    ensures |r| == |s|
    ensures forall i :: 0 <= i < |r| ==> !IsUpper(r[i])
    ensures forall i :: 0 <= i < |s| && !IsUpper(s[i]) ==> r[i] == s[i]
    ensures forall i :: 0 <= i < |s| && IsUpper(s[i]) ==> r[i] as int == s[i] as int + 32
  {
    seq(|s|, i requires 0 <= i < |s| => LowerChar(s[i]))
  }

  /** Lower-casing twice is lower-casing once. */
  lemma LowerIdempotent(s: string)
    ensures Lower(Lower(s)) == Lower(s)
  {
  }

  // ---------------------------------------------------------------------------
  // Substring test (Python's `needle in haystack`)
  // ---------------------------------------------------------------------------

  predicate StartsWith(s: string, p: string) {
    |p| <= |s| && s[..|p|] == p
  }

  /** `p` occurs somewhere in `s`, found by trying every start position. */
  predicate Contains(s: string, p: string)
    decreases |s|
  {
    StartsWith(s, p) || (|s| > 0 && Contains(s[1..], p))
  }

  /** `p` occurs in `s` starting at position `i`. */
  predicate OccursAt(s: string, p: string, i: int) {
    0 <= i && i + |p| <= |s| && s[i..i + |p|] == p
  }

  lemma SliceOfSlice(s: string, a: nat, i: nat, j: nat)
    requires a <= |s| && i <= j <= |s| - a
    ensures s[a..][i..j] == s[a + i..a + j]
  {
    assert forall k :: 0 <= k < j - i ==> s[a..][i..j][k] == s[a + i..a + j][k];
  }

  /** The scan agrees with the positional definition of an occurrence. */
  lemma {:induction false} ContainsIff(s: string, p: string)
    ensures Contains(s, p) <==> exists i :: OccursAt(s, p, i)
    decreases |s|
  {
    if StartsWith(s, p) {
      assert OccursAt(s, p, 0);
    } else if |s| > 0 {
      ContainsIff(s[1..], p);
      if Contains(s[1..], p) {
        var i :| OccursAt(s[1..], p, i);
        SliceOfSlice(s, 1, i, i + |p|);
        assert OccursAt(s, p, i + 1);
      } else {
        forall i | OccursAt(s, p, i)
          ensures false
        {
          if i > 0 {
            SliceOfSlice(s, 1, i - 1, i - 1 + |p|);
            assert OccursAt(s[1..], p, i - 1);
          }
        }
      }
    }
  }

  /** Nothing longer than `s` occurs in `s`. */
  lemma {:induction false} ContainsNoLonger(s: string, p: string)
    ensures Contains(s, p) ==> |p| <= |s|
    decreases |s|
  {
    if |s| > 0 {
      ContainsNoLonger(s[1..], p);
    }
  }

  /** A string lacking one of the characters of `p` cannot contain `p`. */
  lemma NotContainsMissingChar(s: string, p: string, c: char)
    requires c in p && c !in s
    ensures !Contains(s, p)
  {
    ContainsIff(s, p);
    var k :| 0 <= k < |p| && p[k] == c;
    forall i | 0 <= i && i + |p| <= |s| ensures !OccursAt(s, p, i) {
      assert s[i..i + |p|][k] == s[i + k];
    }
  }

  /** An occurrence of `p` inside an occurrence of `q` is an occurrence in `s`. */
  lemma ContainsTransitive(s: string, q: string, p: string)
    requires Contains(s, q) && Contains(q, p)
    ensures Contains(s, p)
  {
    ContainsIff(s, q);
    ContainsIff(q, p);
    ContainsIff(s, p);
    var i :| OccursAt(s, q, i);
    var j :| OccursAt(q, p, j);
    SliceOfSlice(s[..i + |q|], i, j, j + |p|);
    assert s[..i + |q|][i + j..i + j + |p|] == s[i + j..i + j + |p|];
    assert OccursAt(s, p, i + j);
  }

  // ---------------------------------------------------------------------------
  // Digits and base-10 values
  // ---------------------------------------------------------------------------

  predicate IsDigit(c: char) {
    '0' <= c <= '9'
  }

  predicate AllDigits(s: string) {
    forall i :: 0 <= i < |s| ==> IsDigit(s[i])
  }

  /** `"".join(filter(str.isdigit, s))` for ASCII digits: the digit characters
      of `s` in their original order. */
  function Digits(s: string): (r: string)
    ensures AllDigits(r)
    ensures |r| <= |s|
  {
    if |s| == 0 then ""
    else (if IsDigit(s[0]) then [s[0]] else "") + Digits(s[1..])
  }

  /** The filter comes out empty exactly when the string holds no digit. */
  lemma {:induction false} NoDigitsIff(s: string)
    ensures |Digits(s)| == 0 <==> forall i :: 0 <= i < |s| ==> !IsDigit(s[i])
  {
    if |s| > 0 {
      NoDigitsIff(s[1..]);
      assert forall i :: 1 <= i < |s| ==> s[i] == s[1..][i - 1];
    }
  }

  /** Filtering distributes over concatenation: digits far apart in the text
      end up adjacent in the result. */
  lemma {:induction false} DigitsAppend(a: string, b: string)
    ensures Digits(a + b) == Digits(a) + Digits(b)
    decreases |a|
  {
    if |a| == 0 {
      assert a + b == b;
    } else {
      var ab := a + b;
      var d := if IsDigit(a[0]) then [a[0]] else "";
      assert ab[0] == a[0] && ab[1..] == a[1..] + b;
      DigitsAppend(a[1..], b);
      calc {
        Digits(ab);
        d + Digits(a[1..] + b);
        d + (Digits(a[1..]) + Digits(b));
        (d + Digits(a[1..])) + Digits(b);
      }
    }
  }

  /** Lower-casing never touches a digit, so it never changes the digits. */
  lemma {:induction false} DigitsLower(s: string)
    ensures Digits(Lower(s)) == Digits(s)
    decreases |s|
  {
    if |s| > 0 {
      assert Lower(s)[1..] == Lower(s[1..]);
      DigitsLower(s[1..]);
    }
  }

  function Pow10(k: nat): (p: nat)
    ensures p >= 1
  {
    if k == 0 then 1 else 10 * Pow10(k - 1)
  }

  function DigitValue(c: char): (v: nat)
    requires IsDigit(c)
    ensures v < 10
  {
    c as int - '0' as int
  }

  function DigitChar(v: nat): (c: char)
    requires v < 10
    ensures IsDigit(c) && DigitValue(c) == v
  {
    ('0' as int + v) as char
  }

  /** Python's `int(ds)` on a string of ASCII digits (leading zeros allowed,
      the empty string excluded by its callers' `or` default). */
  function ParseDecimal(ds: string): (n: nat)
    requires AllDigits(ds)
    ensures n < Pow10(|ds|)
  {
    if |ds| == 0 then 0
    else 10 * ParseDecimal(ds[..|ds| - 1]) + DigitValue(ds[|ds| - 1])
  }

  /** Python's `str(n)` for a natural number: no leading zeros, "0" for zero. */
  function ShowDecimal(n: nat): (ds: string)
    ensures AllDigits(ds) && |ds| >= 1
    ensures |ds| > 1 ==> ds[0] != '0'
  {
    if n < 10 then [DigitChar(n)] else ShowDecimal(n / 10) + [DigitChar(n % 10)]
  }

  /** Printing a number and parsing it back gives the number. */
  lemma {:induction false} ParseShow(n: nat)
    ensures ParseDecimal(ShowDecimal(n)) == n
  {
    if n >= 10 {
      var ds := ShowDecimal(n);
      assert ds[..|ds| - 1] == ShowDecimal(n / 10);
      ParseShow(n / 10);
    }
  }

  /** The value of a concatenation of digit strings: the left part is shifted
      by as many decimal places as the right part has digits. */
  lemma {:induction false} ParseAppend(a: string, b: string)
    requires AllDigits(a) && AllDigits(b)
    ensures ParseDecimal(a + b) == ParseDecimal(a) * Pow10(|b|) + ParseDecimal(b)
    decreases |b|
  {
    if |b| == 0 {
      assert a + b == a;
    } else {
      var ab := a + b;
      var b' := b[..|b| - 1];
      assert AllDigits(b');
      assert AllDigits(ab) && AllDigits(a + b');
      var d := DigitValue(b[|b| - 1]);
      assert ab[..|ab| - 1] == a + b';
      assert ab[|ab| - 1] == b[|b| - 1];
      ParseAppend(a, b');
      var pa := ParseDecimal(a);
      var k := Pow10(|b'|);
      calc {
        ParseDecimal(ab);
        10 * ParseDecimal(a + b') + d;
        10 * (pa * k + ParseDecimal(b')) + d;
        { ShiftByTen(pa, k); }
        pa * (10 * k) + (10 * ParseDecimal(b') + d);
        pa * Pow10(|b|) + ParseDecimal(b);
      }
    }
  }

  /** The one nonlinear step of ParseAppend, kept apart so the solver sees it
      without the rest of that proof. */
  lemma ShiftByTen(x: int, k: int)
    ensures 10 * (x * k) == x * (10 * k)
  {
  }

  /** Leading zeros do not change the value. */
  lemma LeadingZero(ds: string)
    requires AllDigits(ds)
    ensures ParseDecimal("0" + ds) == ParseDecimal(ds)
  {
    ParseAppend("0", ds);
    assert ParseDecimal("0") == 0 by {
      assert "0"[..0] == "";
    }
  }

  // ---------------------------------------------------------------------------
  // Joining and splitting on the tag separator
  // ---------------------------------------------------------------------------

  /** The separator used by the tags column, by its join and by its split. */
  const Sep: string := ", "

  predicate StartsWithSep(s: string) {
    |s| >= 2 && s[0] == ',' && s[1] == ' '
  }

  /** Python's `s.split(", ")`: cut at every occurrence of the separator, found
      left to right without overlap. Never empty: `"".split(", ") == [""]`. */
  function Split(s: string): (r: seq<string>)
    ensures |r| >= 1
    decreases |s|
  {
    if |s| == 0 then [""]
    else if StartsWithSep(s) then [""] + Split(s[2..])
    else
      var rest := Split(s[1..]);
      [[s[0]] + rest[0]] + rest[1..]
  }

  /** Python's `", ".join(ts)`; the join of no strings is the empty string. */
  function Join(ts: seq<string>): (s: string)
    ensures |ts| == 0 ==> s == ""
    ensures |ts| == 1 ==> s == ts[0]
  {
    if |ts| == 0 then ""
    else if |ts| == 1 then ts[0]
    else ts[0] + Sep + Join(ts[1..])
  }

  /** Split every string and flatten the pieces in order, as pandas'
      `.str.split(", ").explode()` does. */
  function SplitEach(ts: seq<string>): (r: seq<string>)
    ensures |r| >= |ts|
    ensures |ts| > 0 ==> |r| > 0
  {
    if |ts| == 0 then [] else Split(ts[0]) + SplitEach(ts[1..])
  }

  /** A token of the flattened split is a piece of some string's own split. */
  lemma {:induction false} SplitEachMembers(ts: seq<string>, t: string)
    ensures t in SplitEach(ts) <==> exists i :: 0 <= i < |ts| && t in Split(ts[i])
  {
    if |ts| > 0 {
      SplitEachMembers(ts[1..], t);
      if t in SplitEach(ts[1..]) {
        var i :| 0 <= i < |ts| - 1 && t in Split(ts[1..][i]);
        assert t in Split(ts[i + 1]);
      }
      if exists i :: 0 <= i < |ts| && t in Split(ts[i]) {
        var i :| 0 <= i < |ts| && t in Split(ts[i]);
        if i > 0 {
          assert ts[i] == ts[1..][i - 1];
        }
      }
    }
  }

  /** Splitting undoes the join of one separator: no occurrence of ", " can
      straddle the boundary, because the separator has no proper border. */
  lemma {:induction false} SplitAroundSep(a: string, b: string)
    ensures Split(a + Sep + b) == Split(a) + Split(b)
    decreases |a|
  {
    var s := a + Sep + b;
    if |a| == 0 {
      assert s == Sep + b;
      assert StartsWithSep(s);
      assert s[2..] == b;
    } else if StartsWithSep(a) {
      assert StartsWithSep(s);
      assert s[2..] == a[2..] + Sep + b;
      SplitAroundSep(a[2..], b);
    } else {
      assert !StartsWithSep(s);
      assert s[1..] == a[1..] + Sep + b;
      SplitAroundSep(a[1..], b);
    }
  }

  /** Joining non-empty lists of tag strings and splitting the result gives
      exactly the flattened per-string splits. */
  lemma {:induction false} SplitJoin(ts: seq<string>)
    requires |ts| >= 1
    ensures Split(Join(ts)) == SplitEach(ts)
  {
    if |ts| == 1 {
      assert SplitEach(ts[1..]) == [];
      assert SplitEach(ts) == Split(ts[0]);
    } else {
      SplitAroundSep(ts[0], Join(ts[1..]));
      SplitJoin(ts[1..]);
    }
  }

  /** The join of no strings splits into the single empty token. */
  lemma SplitJoinEmpty()
    ensures Split(Join([])) == [""]
  {
  }

  /** Rejoining the pieces of a split restores the original string. */
  lemma {:induction false} JoinSplit(s: string)
    ensures Join(Split(s)) == s
    decreases |s|
  {
    if |s| == 0 {
    } else if StartsWithSep(s) {
      JoinSplit(s[2..]);
      var r := Split(s[2..]);
      assert Split(s) == [""] + r;
      assert ([""] + r)[1..] == r;
      assert s == "" + Sep + s[2..];
    } else {
      var rest := Split(s[1..]);
      JoinSplit(s[1..]);
      var r := [[s[0]] + rest[0]] + rest[1..];
      assert Split(s) == r;
      if |rest| == 1 {
        assert Join(r) == [s[0]] + rest[0];
        assert s == [s[0]] + s[1..];
      } else {
        assert r[1..] == rest[1..];
        assert Join(rest) == rest[0] + Sep + Join(rest[1..]);
        assert Join(r) == [s[0]] + rest[0] + Sep + Join(rest[1..]);
        assert s == [s[0]] + s[1..];
      }
    }
  }

  /** No piece of a split contains the separator. */
  lemma {:induction false} SplitPiecesFree(s: string)
    ensures forall k :: 0 <= k < |Split(s)| ==> !Contains(Split(s)[k], Sep)
    decreases |s|
  {
    if |s| == 0 {
      assert !StartsWith("", Sep);
    } else if StartsWithSep(s) {
      SplitPiecesFree(s[2..]);
      assert !StartsWith("", Sep);
      assert forall k :: 1 <= k < |Split(s)| ==> Split(s)[k] == Split(s[2..])[k - 1];
    } else {
      var rest := Split(s[1..]);
      SplitPiecesFree(s[1..]);
      var head := [s[0]] + rest[0];
      assert !Contains(rest[0], Sep);
      assert head[1..] == rest[0];
      SplitHeadPrefix(s[1..]);
      if |head| >= 2 {
        assert head[0] == s[0] && head[1] == s[1];
        assert head[..2] != Sep;
      }
      assert !StartsWith(head, Sep);
      assert forall k :: 1 <= k < |Split(s)| ==> Split(s)[k] == rest[k];
    }
  }

  /** The first piece of a split is a prefix of the string. */
  lemma {:induction false} SplitHeadPrefix(s: string)
    ensures Split(s)[0] <= s
    decreases |s|
  {
    if |s| > 0 && !StartsWithSep(s) {
      SplitHeadPrefix(s[1..]);
    }
  }
}
