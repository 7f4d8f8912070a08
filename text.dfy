/** The string operations the core relies on, over an ASCII view of JavaScript strings:
    `trim`, `toLowerCase`, `includes`, `replace(/\s+/g, "-")`, `split`, `join`,
    `Number.prototype.toString` and `padStart(2, "0")`. */
module Text {

  /** The ASCII members of JavaScript's white-space class. */
  predicate IsSpace(c: char)
  {
    c == ' ' || c == '\t' || c == '\n' || c == '\r' || c == '\U{000B}' || c == '\U{000C}'
  }

  predicate AllSpaces(s: string)
  {
    forall i :: 0 <= i < |s| ==> IsSpace(s[i])
  }

  /** Neither starts nor ends with white space. */
  predicate IsTrimmed(s: string)
  {
    s == [] || (!IsSpace(s[0]) && !IsSpace(s[|s| - 1]))
  }

  /** The first index at or after `i` whose character is not white space (or the end). */
  function SkipSpaces(s: string, i: nat): (k: nat)
    requires i <= |s|
    ensures i <= k <= |s|
    ensures forall j :: i <= j < k ==> IsSpace(s[j])
    ensures k == |s| || !IsSpace(s[k])
    decreases |s| - i
  {
    if i < |s| && IsSpace(s[i]) then SkipSpaces(s, i + 1) else i
  }

  /** The end of `s[lo..j]` once its trailing white space is dropped. */
  function BackSpaces(s: string, lo: nat, j: nat): (k: nat)
    requires lo <= j <= |s|
    ensures lo <= k <= j
    ensures forall m :: k <= m < j ==> IsSpace(s[m])
    ensures k == lo || !IsSpace(s[k - 1])
    decreases j - lo
  {
    if lo < j && IsSpace(s[j - 1]) then BackSpaces(s, lo, j - 1) else j
  }

  /** `s.trim()`: the part between the leading and the trailing white space. */
  function Trim(s: string): (r: string)
    ensures IsTrimmed(r)
    ensures |r| <= |s|
    ensures r == [] <==> AllSpaces(s)
  {
    var a := SkipSpaces(s, 0);
    var b := BackSpaces(s, a, |s|);
    assert a == b ==> a == |s|;
    s[a..b]
  }

  /** The trimmed string is the input with its leading and its trailing white space cut
      off, and nothing else. */
  lemma TrimSlice(s: string)
    ensures exists i, j :: 0 <= i <= j <= |s| && Trim(s) == s[i..j] && AllSpaces(s[..i]) && AllSpaces(s[j..])
  {
    var a := SkipSpaces(s, 0);
    var b := BackSpaces(s, a, |s|);
    assert AllSpaces(s[..a]) && AllSpaces(s[b..]);
  }

  /** Trimming only removes characters. */
  lemma TrimKeepsChars(s: string, c: char)
    requires c in Trim(s)
    ensures c in s
  {
    var a := SkipSpaces(s, 0);
    var b := BackSpaces(s, a, |s|);
    var k :| 0 <= k < b - a && s[a..b][k] == c;
    assert s[a + k] == c;
  }

  /** Trimming a trimmed string behind leading white space gives the string back. */
  lemma TrimAfterSpaces(w: string, t: string)
    requires AllSpaces(w) && IsTrimmed(t)
    ensures Trim(w + t) == t
  {
    var s := w + t;
    var a := SkipSpaces(s, 0);
    assert a == |w| by {
      if t != [] {
        assert s[|w|] == t[0];
      }
    }
    if t != [] {
      assert s[|s| - 1] == t[|t| - 1];
    }
    assert BackSpaces(s, a, |s|) == |s|;
    assert s[|w|..|s|] == t;
  }

  /** Trimming drops exactly the white space around a trimmed string. */
  lemma TrimAround(w: string, t: string, v: string)
    requires AllSpaces(w) && IsTrimmed(t) && AllSpaces(v)
    ensures Trim(w + t + v) == t
  {
    var s := w + t + v;
    if t == [] {
      forall i | 0 <= i < |s| ensures IsSpace(s[i]) {
        if i >= |w| {
          assert s[i] == v[i - |w|];
        }
      }
    } else {
      var a := SkipSpaces(s, 0);
      assert s[|w|] == t[0];
      assert a == |w|;
      var e := |w| + |t|;
      assert s[e - 1] == t[|t| - 1];
      var b := BackSpaces(s, a, |s|);
      assert b == e;
      assert s[a..b] == t;
    }
  }

  /** A string without white space is already trimmed. */
  lemma TrimWithoutSpaces(s: string)
    requires forall i :: 0 <= i < |s| ==> !IsSpace(s[i])
    ensures Trim(s) == s
  {
    TrimAfterSpaces("", s);
    assert "" + s == s;
  }

  /** Trimming twice is trimming once. */
  lemma TrimIdempotent(s: string)
    ensures Trim(Trim(s)) == Trim(s)
  {
    TrimAfterSpaces("", Trim(s));
    assert "" + Trim(s) == Trim(s);
  }

  function LowerChar(c: char): char
  {
    if 'A' <= c <= 'Z' then (c as int + 32) as char else c
  }

  /** `s.toLowerCase()` on ASCII letters. */
  function Lower(s: string): (r: string)
    ensures |r| == |s|
    ensures forall i :: 0 <= i < |s| ==> r[i] == LowerChar(s[i])
  {
    seq(|s|, i requires 0 <= i < |s| => LowerChar(s[i]))
  }

  /** Lower-casing leaves only characters that lower-casing fixes. */
  lemma LowerIsLower(s: string)
    ensures forall c :: c in Lower(s) ==> LowerChar(c) == c
  {
    forall c | c in Lower(s) ensures LowerChar(c) == c {
      var m :| 0 <= m < |s| && Lower(s)[m] == c;
    }
  }

  /** `haystack.includes(needle)` */
  predicate Includes(haystack: string, needle: string)
  {
    needle <= haystack || (haystack != [] && Includes(haystack[1..], needle))
  }

  /** `s.replace(/\s+/g, "-")`: every maximal run of white space becomes one dash. */
  function DashSpaceRuns(s: string): (r: string)
    ensures |r| <= |s|
    ensures forall i :: 0 <= i < |r| ==> !IsSpace(r[i])
    ensures r == [] <==> s == []
  {
    DashFrom(s, 0)
  }

  /** The replacement applied to `s[i..]`. */
  function DashFrom(s: string, i: nat): (r: string)
    requires i <= |s|
    ensures |r| <= |s| - i
    ensures forall k :: 0 <= k < |r| ==> !IsSpace(r[k])
    ensures r == [] <==> i == |s|
    decreases |s| - i
  {
    if i == |s| then []
    else if IsSpace(s[i]) then "-" + DashFrom(s, SkipSpaces(s, i + 1))
    else [s[i]] + DashFrom(s, i + 1)
  }

  /** Dashing white-space runs only brings in dashes: every other character comes from the input. */
  lemma DashSpaceRunsChars(s: string)
    ensures forall c :: c in DashSpaceRuns(s) ==> c == '-' || c in s
  {
    DashFromChars(s, 0);
  }

  lemma {:induction false} DashFromChars(s: string, i: nat)
    requires i <= |s|
    ensures forall c :: c in DashFrom(s, i) ==> c == '-' || c in s
    decreases |s| - i
  {
    if i < |s| {
      if IsSpace(s[i]) {
        DashFromChars(s, SkipSpaces(s, i + 1));
      } else {
        DashFromChars(s, i + 1);
      }
    }
  }

  /** A string without white space is left as it is, so slugging twice equals slugging once. */
  lemma DashSpaceRunsWithoutSpaces(s: string)
    requires forall i :: 0 <= i < |s| ==> !IsSpace(s[i])
    ensures DashSpaceRuns(s) == s
  {
    DashFromWithoutSpaces(s, 0);
  }

  lemma {:induction false} DashFromWithoutSpaces(s: string, i: nat)
    requires i <= |s|
    requires forall k :: 0 <= k < |s| ==> !IsSpace(s[k])
    ensures DashFrom(s, i) == s[i..]
    decreases |s| - i
  {
    if i < |s| {
      DashFromWithoutSpaces(s, i + 1);
      assert s[i..] == [s[i]] + s[i + 1..];
    }
  }

  /** A white-space run between two pieces that do not touch it with white space of their
      own becomes one dash, and each piece is dashed on its own. */
  lemma DashSpaceRunsConcat(a: string, w: string, b: string)
    requires AllSpaces(w) && w != []
    requires a == [] || !IsSpace(a[|a| - 1])
    requires b == [] || !IsSpace(b[0])
    ensures DashSpaceRuns(a + w + b) == DashSpaceRuns(a) + "-" + DashSpaceRuns(b)
  {
    assert RunBetween(a, w, b);
    DashFromConcat(a, w, b, 0);
  }

  /** `w` is a white-space run that neither neighbour extends. */
  predicate RunBetween(a: string, w: string, b: string)
  {
    AllSpaces(w) && w != [] && (a == [] || !IsSpace(a[|a| - 1])) && (b == [] || !IsSpace(b[0]))
  }

  lemma {:induction false} DashFromConcat(a: string, w: string, b: string, i: nat)
    requires RunBetween(a, w, b)
    requires i <= |a|
    ensures DashFrom(a + w + b, i) == DashFrom(a, i) + "-" + DashFrom(b, 0)
    decreases |a| - i
  {
    if i == |a| {
      DashFromAtRun(a, w, b);
    } else if IsSpace(a[i]) {
      var k := SkipSpaces(a, i + 1);
      DashFromSpaceIn(a, w + b, i);
      assert a + (w + b) == a + w + b;
      DashFromConcat(a, w, b, k);
      Reassociate("-", DashFrom(a, k), "-", DashFrom(b, 0));
    } else {
      DashFromCharIn(a, w + b, i);
      assert a + (w + b) == a + w + b;
      DashFromConcat(a, w, b, i + 1);
      Reassociate([a[i]], DashFrom(a, i + 1), "-", DashFrom(b, 0));
    }
  }

  lemma Reassociate(p: string, x: string, q: string, y: string)
    ensures p + (x + q + y) == p + x + q + y
  {
  }

  /** A character of `a` that is not white space is copied, in `a` as in `a + rest`. */
  lemma DashFromCharIn(a: string, rest: string, i: nat)
    requires i < |a| && !IsSpace(a[i])
    ensures DashFrom(a + rest, i) == [a[i]] + DashFrom(a + rest, i + 1)
    ensures DashFrom(a, i) == [a[i]] + DashFrom(a, i + 1)
  {
    assert (a + rest)[i] == a[i];
  }

  /** A white-space run inside `a` becomes one dash, in `a` as in `a + rest`, and both
      go on after it at the same place. */
  lemma DashFromSpaceIn(a: string, rest: string, i: nat)
    requires i < |a| && IsSpace(a[i]) && !IsSpace(a[|a| - 1])
    ensures SkipSpaces(a, i + 1) < |a|
    ensures DashFrom(a + rest, i) == "-" + DashFrom(a + rest, SkipSpaces(a, i + 1))
    ensures DashFrom(a, i) == "-" + DashFrom(a, SkipSpaces(a, i + 1))
  {
    assert (a + rest)[i] == a[i];
    SkipSpacesInPrefix(a, rest, i + 1);
  }

  /** The run itself becomes one dash, and what follows it is dashed on its own. */
  lemma DashFromAtRun(a: string, w: string, b: string)
    requires AllSpaces(w) && w != []
    requires b == [] || !IsSpace(b[0])
    ensures DashFrom(a + w + b, |a|) == "-" + DashFrom(b, 0)
  {
    var s := a + w + b;
    assert s[|a|] == w[0];
    SkipRun(a, w, b);
    DashFromSuffix(a + w, b, 0);
  }

  /** Skipping white space from inside the run stops right after it. */
  lemma SkipRun(a: string, w: string, b: string)
    requires AllSpaces(w) && w != []
    requires b == [] || !IsSpace(b[0])
    ensures SkipSpaces(a + w + b, |a| + 1) == |a| + |w|
  {
    var s := a + w + b;
    var e := |a| + |w|;
    forall j | |a| + 1 <= j < e ensures IsSpace(s[j]) {
      assert s[j] == w[j - |a|];
    }
    if e < |s| {
      assert s[e] == b[0];
    }
    SkipSpacesUnique(s, |a| + 1, e);
  }

  /** A white-space run that ends inside `a` ends at the same place in `a + rest`. */
  lemma SkipSpacesInPrefix(a: string, rest: string, i: nat)
    requires i < |a| && !IsSpace(a[|a| - 1])
    ensures SkipSpaces(a + rest, i) == SkipSpaces(a, i)
  {
    var s := a + rest;
    var k := SkipSpaces(a, i);
    assert k < |a|;
    forall j | i <= j < k ensures IsSpace(s[j]) {
      assert s[j] == a[j];
    }
    assert s[k] == a[k];
    SkipSpacesUnique(s, i, k);
  }

  /** Any index that ends a run of white space starting at `i` is where `SkipSpaces` stops. */
  lemma SkipSpacesUnique(s: string, i: nat, k: nat)
    requires i <= k <= |s|
    requires forall j :: i <= j < k ==> IsSpace(s[j])
    requires k == |s| || !IsSpace(s[k])
    ensures SkipSpaces(s, i) == k
  {
  }

  /** Dashing the tail of `p + b` that lies in `b` is dashing `b` there. */
  lemma {:induction false} DashFromSuffix(p: string, b: string, j: nat)
    requires j <= |b|
    ensures DashFrom(p + b, |p| + j) == DashFrom(b, j)
    decreases |b| - j
  {
    var s := p + b;
    if j < |b| {
      assert s[|p| + j] == b[j];
      if IsSpace(b[j]) {
        var k := SkipSpaces(b, j + 1);
        forall m | |p| + j + 1 <= m < |p| + k ensures IsSpace(s[m]) {
          assert s[m] == b[m - |p|];
        }
        if k < |b| {
          assert s[|p| + k] == b[k];
        }
        SkipSpacesUnique(s, |p| + j + 1, |p| + k);
        DashFromSuffix(p, b, k);
      } else {
        DashFromSuffix(p, b, j + 1);
      }
    }
  }

  /** `s.split(sep)` for a one-character separator. */
  function Split(s: string, sep: char): (r: seq<string>)
    ensures |r| >= 1
    ensures forall i :: 0 <= i < |r| ==> sep !in r[i]
  {
    if s == [] then [""]
    else
      var rest := Split(s[1..], sep);
      if s[0] == sep then [""] + rest
      else [[s[0]] + rest[0]] + rest[1..]
  }

  /** `pieces.join(glue)` */
  function Join(pieces: seq<string>, glue: string): string
  {
    if pieces == [] then ""
    else if |pieces| == 1 then pieces[0]
    else pieces[0] + glue + Join(pieces[1..], glue)
  }

  /** Splitting and joining back with the separator gives the input again. */
  lemma {:induction false} JoinSplit(s: string, sep: char)
    ensures Join(Split(s, sep), [sep]) == s
    decreases |s|
  {
    if s != [] {
      JoinSplit(s[1..], sep);
      var rest := Split(s[1..], sep);
      if s[0] == sep {
        assert ([""] + rest)[1..] == rest;
      } else {
        var r := [[s[0]] + rest[0]] + rest[1..];
        if |rest| == 1 {
          assert s == [s[0]] + s[1..];
        } else {
          assert Join(rest, [sep]) == rest[0] + [sep] + Join(rest[1..], [sep]);
          assert r[1..] == rest[1..];
          assert s == [s[0]] + s[1..];
        }
      }
    }
  }

  /** A piece without the separator splits into itself. */
  lemma {:induction false} SplitWithoutSep(a: string, sep: char)
    requires sep !in a
    ensures Split(a, sep) == [a]
    decreases |a|
  {
    if a != [] {
      SplitWithoutSep(a[1..], sep);
      assert [a[0]] + a[1..] == a;
    }
  }

  /** Splitting at the first separator peels off the text before it. */
  lemma {:induction false} SplitAtFirstSep(a: string, sep: char, b: string)
    requires sep !in a
    ensures Split(a + [sep] + b, sep) == [a] + Split(b, sep)
    decreases |a|
  {
    if a == [] {
      assert a + [sep] + b == [sep] + b;
      assert ([sep] + b)[1..] == b;
    } else {
      assert (a + [sep] + b)[1..] == a[1..] + [sep] + b;
      SplitAtFirstSep(a[1..], sep, b);
      assert [a[0]] + a[1..] == a;
    }
  }

  predicate IsDigit(c: char)
  {
    '0' <= c <= '9'
  }

  predicate AllDigits(s: string)
  {
    forall i :: 0 <= i < |s| ==> IsDigit(s[i])
  }

  function DigitChar(d: nat): char
    requires d < 10
  {
    ('0' as int + d) as char
  }

  /** The number a string of decimal digits denotes. */
  function DecimalValue(s: string): nat
    requires AllDigits(s)
  {
    if s == [] then 0
    else DecimalValue(s[..|s| - 1]) * 10 + (s[|s| - 1] as int - '0' as int)
  }

  /** `n.toString()` for a natural number. */
  function NatToString(n: nat): (r: string)
    ensures |r| >= 1 && AllDigits(r)
    ensures n < 10 <==> |r| == 1
    ensures n > 0 ==> r[0] != '0'
  {
    if n < 10 then [DigitChar(n)] else NatToString(n / 10) + [DigitChar(n % 10)]
  }

  /** `toString` and reading the digits back are inverse. */
  lemma {:induction false} NatToStringValue(n: nat)
    ensures DecimalValue(NatToString(n)) == n
  {
    if n >= 10 {
      NatToStringValue(n / 10);
      var r := NatToString(n);
      assert r[..|r| - 1] == NatToString(n / 10);
    }
  }

  /** The decimal form of a number has at most two digits exactly when the number is
      below one hundred. */
  lemma NatToStringShort(n: nat)
    ensures |NatToString(n)| <= 2 <==> n < 100
  {
    if n >= 10 {
      assert NatToString(n) == NatToString(n / 10) + [DigitChar(n % 10)];
    }
  }

  /** `s.padStart(2, "0")` */
  function PadStart2(s: string): (r: string)
    ensures |r| == if |s| >= 2 then |s| else 2
    ensures AllDigits(s) ==> AllDigits(r)
  {
    if |s| >= 2 then s
    else if |s| == 1 then "0" + s
    else "00"
  }

  /** Padding puts zeros in front of the string and keeps it whole at the end. */
  lemma PadStart2Spec(s: string)
    ensures var r := PadStart2(s);
      && r[|r| - |s|..] == s
      && forall i :: 0 <= i < |r| - |s| ==> r[i] == '0'
  {
  }

  /** Leading zeros do not change a decimal value. */
  lemma {:induction false} LeadingZero(s: string)
    requires AllDigits(s)
    ensures AllDigits("0" + s) && DecimalValue("0" + s) == DecimalValue(s)
    decreases |s|
  {
    if s != [] {
      LeadingZero(s[..|s| - 1]);
      assert ("0" + s)[..|s|] == "0" + s[..|s| - 1];
    }
  }

  lemma PadStart2Value(s: string)
    requires AllDigits(s)
    ensures DecimalValue(PadStart2(s)) == DecimalValue(s)
  {
    if |s| == 1 {
      LeadingZero(s);
    } else if s == [] {
      LeadingZero("0");
    }
  }
}
