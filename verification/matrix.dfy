/**
 * Matrix declarations: the Java string operations the parser leans on (split with a literal
 * separator, trim, Integer.toString), the declaration checks, the expansion of a matrix into
 * one BaseVariable per index tuple named name_i_j_, and Assignment.asMatrixAccess, which turns
 * those names back into name[i][j].
 */
module Matrix {
  import opened Wrappers
  import opened Variables
  import opened Engine

  // ---------------------------------------------------------------------------------------
  // Splitting at a literal separator
  // ---------------------------------------------------------------------------------------

  /** sep occurs in s at position k. */
  predicate OccursAt(s: string, sep: string, k: int) {
    0 <= k && k + |sep| <= |s| && s[k..k + |sep|] == sep
  }

  /** sep does not occur anywhere in s. */
  ghost predicate Free(s: string, sep: string) {
    forall k :: !OccursAt(s, sep, k)
  }

  /** indexOf(sep, j): the first occurrence of sep at or after j, or -1. */
  function IndexFrom(s: string, sep: string, j: nat): (r: int)
    requires |sep| > 0
    ensures r == -1 || (j <= r && OccursAt(s, sep, r))
    ensures r == -1 ==> forall k | j <= k :: !OccursAt(s, sep, k)
    ensures r != -1 ==> forall k | j <= k < r :: !OccursAt(s, sep, k)
    decreases |s| - j
  {
    if j + |sep| > |s| then -1
    else if s[j..j + |sep|] == sep then j
    else IndexFrom(s, sep, j + 1)
  }

  /** The parts joined back together, sep between each two. */
  function Join(parts: seq<string>, sep: string): string
    decreases |parts|
  {
    if |parts| == 0 then ""
    else if |parts| == 1 then parts[0]
    else parts[0] + sep + Join(parts[1..], sep)
  }

  /**
   * s cut at every occurrence of sep, the leftmost first and non-overlapping, keeping every
   * part, empty ones included: the parts hold no sep and join back to s.
   */
  function SplitAll(s: string, sep: string): (parts: seq<string>)
    requires |sep| > 0
    ensures |parts| >= 1 && Join(parts, sep) == s
    ensures forall i | 0 <= i < |parts| :: Free(parts[i], sep)
    decreases |s|
  {
    var i := IndexFrom(s, sep, 0);
    if i < 0 then [s]
    else
      var rest := SplitAll(s[i + |sep|..], sep);
      FreePrefix(s, sep, i);
      assert s == s[..i] + sep + s[i + |sep|..];
      [s[..i]] + rest
  }

  /** A prefix that ends before the first occurrence holds no occurrence. */
  lemma FreePrefix(s: string, sep: string, i: int)
    requires |sep| > 0 && 0 <= i <= |s| && forall k | 0 <= k < i :: !OccursAt(s, sep, k)
    ensures Free(s[..i], sep)
  {
    forall k | OccursAt(s[..i], sep, k) ensures false {
      assert s[..i][k..k + |sep|] == s[k..k + |sep|];
      assert OccursAt(s, sep, k);
    }
  }

  /** The number of separators split finds in s. */
  function Separators(s: string, sep: string): nat
    requires |sep| > 0
  {
    |SplitAll(s, sep)| - 1
  }

  /** The parts with the empty ones at the end removed. */
  function DropTrailingEmpty(parts: seq<string>): (r: seq<string>)
    ensures |r| <= |parts| && r == parts[..|r|]
    ensures forall k | |r| <= k < |parts| :: parts[k] == ""
    ensures |r| == 0 || r[|r| - 1] != ""
    decreases |parts|
  {
    if parts == [] then []
    else if parts[|parts| - 1] == "" then DropTrailingEmpty(parts[..|parts| - 1])
    else parts
  }

  /**
   * String.split with a separator free of regular-expression syntax: the parts of SplitAll,
   * except that, once some separator was found, the trailing empty parts are dropped.
   */
  function JavaSplit(s: string, sep: string): (r: seq<string>)
    requires |sep| > 0
    ensures Separators(s, sep) == 0 ==> r == [s]
    ensures Separators(s, sep) > 0 ==> var all := SplitAll(s, sep);
      && |r| <= |all| && r == all[..|r|]
      && (forall k | |r| <= k < |all| :: all[k] == "")
      && (|r| == 0 || r[|r| - 1] != "")
  {
    var all := SplitAll(s, sep);
    if |all| == 1 then all else DropTrailingEmpty(all)
  }

  /**
   * The check "exactly one sep must separate" made good: s splits into two parts exactly when
   * split finds one separator and something follows it. As in the source, nothing after the
   * separator is a missing part.
   */
  function SplitExactlyOnce(s: string, sep: string): (r: Result<(string, string)>)
    requires |sep| > 0
    ensures r.Ok? <==> Separators(s, sep) == 1 && SplitAll(s, sep)[1] != ""
    ensures r.Err? ==> r.fault == IllegalArgument
    ensures r.Ok? ==> s == r.value.0 + sep + r.value.1 && Free(r.value.0, sep) && Free(r.value.1, sep)
    ensures r.Ok? ==> r.value.1 != ""
  {
    var all := SplitAll(s, sep);
    if |all| != 2 || all[1] == "" then Err(IllegalArgument)
    else
      assert Join(all[1..], sep) == all[1];
      Ok((all[0], all[1]))
  }

  /**
   * The check as the source writes it: split, then demand two parts. A trailing empty part is
   * dropped before the count, so a second separator at the very end goes unnoticed.
   */
  function SplitAsWritten(s: string, sep: string): (r: Result<(string, string)>)
    requires |sep| > 0
    ensures r.Ok? <==> |JavaSplit(s, sep)| == 2
    ensures r.Ok? ==> r.value == (JavaSplit(s, sep)[0], JavaSplit(s, sep)[1])
  {
    var parts := JavaSplit(s, sep);
    if |parts| != 2 then Err(IllegalArgument) else Ok((parts[0], parts[1]))
  }

  /**
   * The two checks agree on every string with at most one separator; the check as written
   * accepts more only when split finds further separators, all of them trailing.
   */
  lemma AsWrittenAgrees(s: string, sep: string)
    requires |sep| > 0
    ensures SplitExactlyOnce(s, sep).Ok? ==> SplitAsWritten(s, sep) == SplitExactlyOnce(s, sep)
    ensures Separators(s, sep) <= 1 ==> SplitAsWritten(s, sep) == SplitExactlyOnce(s, sep)
    ensures SplitAsWritten(s, sep).Ok? && SplitExactlyOnce(s, sep).Err? ==>
      Separators(s, sep) > 1 && forall k | 2 <= k < |SplitAll(s, sep)| :: SplitAll(s, sep)[k] == ""
  {
  }

  /**
   * The discrepancy: a second separator right at the end, as in "0,1," or
   * "[1,3] of values 0,1 of values", passes the check as written, which then reads the first
   * two parts; the corrected check refuses it.
   */
  lemma TrailingSeparator(a: string, sep: string, b: string)
    requires |sep| > 0 && sep[0] !in a && sep[0] !in b && sep[0] !in sep[1..] && b != ""
    ensures SplitAsWritten(a + sep + b + sep, sep) == Ok((a, b))
    ensures SplitExactlyOnce(a + sep + b + sep, sep) == Err(IllegalArgument)
  {
    FirstCharFree(a, sep);
    FirstCharFree(b, sep);
    assert a + sep + b + sep == a + sep + (b + sep + "");
    SplitFirst(a, sep, b + sep + "");
    SplitFirst(b, sep, "");
    SplitFree("", sep);
    assert SplitAll(a + sep + b + sep, sep) == [a, b, ""];
  }

  /** A concrete instance: the values "0,1," parse as the two values 0 and 1. */
  lemma TrailingComma()
    ensures SplitAsWritten("0,1,", ",") == Ok(("0", "1"))
    ensures SplitExactlyOnce("0,1,", ",").Err?
  {
    TrailingSeparator("0", ",", "1");
    assert "0" + "," + "1" + "," == "0,1,";
  }

  // ---------------------------------------------------------------------------------------
  // trim, startsWith, endsWith
  // ---------------------------------------------------------------------------------------

  /** The characters String.trim removes: every code point up to the space. */
  predicate Blank(c: char) {
    c <= ' '
  }

  function TrimStart(s: string): (r: string)
    ensures |r| <= |s| && r == s[|s| - |r|..]
    ensures forall i | 0 <= i < |s| - |r| :: Blank(s[i])
    ensures r != [] ==> !Blank(r[0])
    decreases |s|
  {
    if s != [] && Blank(s[0]) then TrimStart(s[1..]) else s
  }

  function TrimEnd(s: string): (r: string)
    ensures |r| <= |s| && r == s[..|r|]
    ensures forall i | |r| <= i < |s| :: Blank(s[i])
    ensures r != [] ==> !Blank(r[|r| - 1])
    decreases |s|
  {
    if s != [] && Blank(s[|s| - 1]) then TrimEnd(s[..|s| - 1]) else s
  }

  /**
   * String.trim: s without its leading and trailing blanks. What is removed is blank, and what
   * is left neither starts nor ends with a blank.
   */
  function Trim(s: string): (r: string)
    ensures exists a :: Trimmed(s, a, r)
    ensures r != [] ==> !Blank(r[0]) && !Blank(r[|r| - 1])
    ensures (s == [] || (!Blank(s[0]) && !Blank(s[|s| - 1]))) ==> r == s
  {
    var t := TrimStart(s);
    var r := TrimEnd(t);
    var a := |s| - |t|;
    assert r == s[a..a + |r|];
    assert Trimmed(s, a, r);
    assert r != [] ==> r[0] == t[0];
    r
  }

  /** r is s from position a on, with only blanks around it. */
  ghost predicate Trimmed(s: string, a: int, r: string) {
    && 0 <= a && a + |r| <= |s| && r == s[a..a + |r|]
    && (forall i | 0 <= i < a :: Blank(s[i])) && (forall i | a + |r| <= i < |s| :: Blank(s[i]))
  }

  predicate StartsWith(s: string, c: char) {
    |s| > 0 && s[0] == c
  }

  predicate EndsWith(s: string, c: char) {
    |s| > 0 && s[|s| - 1] == c
  }

  // ---------------------------------------------------------------------------------------
  // Integer.toString and its inverse
  // ---------------------------------------------------------------------------------------

  predicate IsDigit(c: char) {
    '0' <= c <= '9'
  }

  function DigitChar(d: nat): (c: char)
    requires d < 10
    ensures IsDigit(c)
  {
    ('0' as int + d) as char
  }

  function DigitValue(c: char): (d: nat)
    requires IsDigit(c)
    ensures d < 10
  {
    (c as int - '0' as int) as nat
  }

  /** The decimal digits of n, most significant first, with no leading zero. */
  function NatToString(n: nat): (r: string)
    ensures |r| > 0 && forall i | 0 <= i < |r| :: IsDigit(r[i])
    decreases n
  {
    if n < 10 then [DigitChar(n)] else NatToString(n / 10) + [DigitChar(n % 10)]
  }

  /** Integer.toString: a minus sign before the digits of a negative number. */
  function IntToString(k: int): (r: string)
    ensures |r| > 0 && (forall i | 0 <= i < |r| :: IsDigit(r[i]) || r[i] == '-')
    ensures (k < 0) == (r[0] == '-')
  {
    if k < 0 then "-" + NatToString(-k) else NatToString(k)
  }

  /** The number a string of decimal digits spells. */
  function DigitsValue(s: string): nat
    requires forall i | 0 <= i < |s| :: IsDigit(s[i])
    decreases |s|
  {
    if s == [] then 0 else DigitsValue(s[..|s| - 1]) * 10 + DigitValue(s[|s| - 1])
  }

  /** Reading back the digits of n gives n. */
  lemma {:induction false} NatToStringRoundTrip(n: nat)
    ensures DigitsValue(NatToString(n)) == n
    decreases n
  {
    var r := NatToString(n);
    if n >= 10 {
      NatToStringRoundTrip(n / 10);
      assert r[..|r| - 1] == NatToString(n / 10);
    }
  }

  /** Integer.toString is one-to-one: distinct numbers are written differently. */
  lemma IntToStringInjective(k1: int, k2: int)
    requires IntToString(k1) == IntToString(k2)
    ensures k1 == k2
  {
    var r := IntToString(k1);
    if k1 < 0 {
      assert r[1..] == NatToString(-k1) == NatToString(-k2);
      NatToStringRoundTrip(-k1);
      NatToStringRoundTrip(-k2);
    } else {
      NatToStringRoundTrip(k1);
      NatToStringRoundTrip(k2);
    }
  }

  // ---------------------------------------------------------------------------------------
  // Index tuples
  // ---------------------------------------------------------------------------------------

  /** The first and last index of each dimension. */
  type Limits = seq<(int, int)>

  /** The number of indexes lo..hi: none when lo > hi. */
  function Size(l: (int, int)): (n: nat)
    ensures n == if l.0 <= l.1 then l.1 - l.0 + 1 else 0
  {
    if l.0 <= l.1 then l.1 - l.0 + 1 else 0
  }

  /** The number of index tuples: the product of the dimensions' sizes. */
  function Count(limits: Limits): nat
    decreases |limits|
  {
    if limits == [] then 1 else Size(limits[0]) * Count(limits[1..])
  }

  /** t indexes the matrix, and from dimension m on lies within the limits. */
  ghost predicate InRange(limits: Limits, t: seq<int>, m: nat) {
    |t| == |limits| && forall d | m <= d < |limits| :: limits[d].0 <= t[d] <= limits[d].1
  }

  /** a and b agree before position d and a is smaller at d. */
  ghost predicate FirstDifference(a: seq<int>, b: seq<int>, d: int) {
    0 <= d < |a| && d < |b| && a[..d] == b[..d] && a[d] < b[d]
  }

  /** a comes before b in lexicographic order. */
  ghost predicate Before(a: seq<int>, b: seq<int>) {
    exists d :: FirstDifference(a, b, d)
  }

  /** Every tuple comes before every later one, so none repeats. */
  ghost predicate Ascending(r: seq<seq<int>>) {
    forall x, y | 0 <= x < y < |r| :: Before(r[x], r[y])
  }

  /**
   * recurseForEachValue: with keys fixed for the dimensions before |keys|, every tuple whose
   * index there runs from i to the last one, the later dimensions enumerated below each.
   */
  function RecurseForEachValue(limits: Limits, keys: seq<int>, i: int): (r: seq<seq<int>>)
    requires |keys| < |limits|
    ensures forall t :: t in r <==> (&& |t| == |limits| && t[..|keys|] == keys
                                     && i <= t[|keys|] <= limits[|keys|].1 && InRange(limits, t, |keys| + 1))
    ensures Ascending(r)
    ensures |r| == Size((i, limits[|keys|].1)) * Count(limits[|keys| + 1..])
    decreases |limits| - |keys|, 1, Size((i, limits[|keys|].1))
  {
    if i > limits[|keys|].1 then []
    else
      var keys' := keys + [i];
      assert |keys'| == |keys| + 1;
      var a := CheckBottom(limits, keys');
      var b := RecurseForEachValue(limits, keys, i + 1);
      ForEachValueStep(limits, keys, i, a, b);
      a + b
  }

  /**
   * checkBottom: once keys index every dimension, the one tuple keys; otherwise every tuple
   * extending keys within the limits of the remaining dimensions.
   */
  function CheckBottom(limits: Limits, keys: seq<int>): (r: seq<seq<int>>)
    requires 0 < |keys| <= |limits|
    ensures forall t :: t in r <==> |t| == |limits| && t[..|keys|] == keys && InRange(limits, t, |keys|)
    ensures Ascending(r)
    ensures |r| == Count(limits[|keys|..])
    decreases |limits| - |keys| + 1, 0, 0
  {
    if |keys| == |limits| then
      assert forall t: seq<int> | |t| == |limits| :: t[..|keys|] == t;
      assert limits[|keys|..] == [];
      [keys]
    else
      var r := RecurseForEachValue(limits, keys, limits[|keys|].0);
      InRangeStep(limits, keys);
      CountStep(limits, |keys|);
      r
  }

  /** Within the limits from dimension m on: within dimension m, then from m + 1 on. */
  lemma InRangeStep(limits: Limits, keys: seq<int>)
    requires |keys| < |limits|
    ensures forall t :: (&& |t| == |limits| && t[..|keys|] == keys
                         && limits[|keys|].0 <= t[|keys|] <= limits[|keys|].1 && InRange(limits, t, |keys| + 1))
                        <==> |t| == |limits| && t[..|keys|] == keys && InRange(limits, t, |keys|)
  {
  }

  lemma CountStep(limits: Limits, m: nat)
    requires m < |limits|
    ensures Count(limits[m..]) == Size((limits[m].0, limits[m].1)) * Count(limits[m + 1..])
  {
    assert limits[m..][1..] == limits[m + 1..];
  }

  /** One turn of the loop of recurseForEachValue: the tuples with index i, then the rest. */
  lemma ForEachValueStep(limits: Limits, keys: seq<int>, i: int, a: seq<seq<int>>, b: seq<seq<int>>)
    requires |keys| < |limits| && i <= limits[|keys|].1
    requires forall t :: t in a <==> |t| == |limits| && t[..|keys| + 1] == keys + [i] && InRange(limits, t, |keys| + 1)
    requires Ascending(a) && |a| == Count(limits[|keys| + 1..])
    requires forall t :: t in b <==> (&& |t| == |limits| && t[..|keys|] == keys
                                      && i + 1 <= t[|keys|] <= limits[|keys|].1 && InRange(limits, t, |keys| + 1))
    requires Ascending(b) && |b| == Size((i + 1, limits[|keys|].1)) * Count(limits[|keys| + 1..])
    ensures forall t :: t in a + b <==> (&& |t| == |limits| && t[..|keys|] == keys
                                         && i <= t[|keys|] <= limits[|keys|].1 && InRange(limits, t, |keys| + 1))
    ensures Ascending(a + b)
    ensures |a + b| == Size((i, limits[|keys|].1)) * Count(limits[|keys| + 1..])
  {
    var m := |keys|;
    forall t: seq<int> | |t| == |limits| ensures (t[..m + 1] == keys + [i]) <==> (t[..m] == keys && t[m] == i) {
      PrefixStep(t, keys, i);
    }
    forall x, y | x in a && y in b ensures Before(x, y) {
      assert FirstDifference(x, y, m);
    }
    AscendingConcat(a, b);
    SizeStep(i, limits[m].1, Count(limits[m + 1..]));
  }

  /** t begins with keys then i exactly when it begins with keys and holds i next. */
  lemma PrefixStep(t: seq<int>, keys: seq<int>, i: int)
    requires |keys| < |t|
    ensures (t[..|keys| + 1] == keys + [i]) <==> (t[..|keys|] == keys && t[|keys|] == i)
  {
    var m := |keys|;
    assert t[..m + 1] == t[..m] + [t[m]];
    if t[..m + 1] == keys + [i] {
      assert t[..m] == t[..m + 1][..m];
      assert t[m] == t[..m + 1][m];
    }
  }

  lemma SizeStep(i: int, hi: int, c: nat)
    requires i <= hi
    ensures Size((i, hi)) * c == c + Size((i + 1, hi)) * c
  {
    assert Size((i, hi)) == 1 + Size((i + 1, hi));
  }

  /** Two ascending runs, every tuple of the first before every tuple of the second, make one. */
  lemma AscendingConcat(a: seq<seq<int>>, b: seq<seq<int>>)
    requires Ascending(a) && Ascending(b)
    requires forall x, y | x in a && y in b :: Before(x, y)
    ensures Ascending(a + b)
  {
    var ab := a + b;
    forall x, y | 0 <= x < y < |ab| ensures Before(ab[x], ab[y]) {
      if y < |a| {
        assert ab[x] == a[x] && ab[y] == a[y];
      } else if x >= |a| {
        assert ab[x] == b[x - |a|] && ab[y] == b[y - |a|];
      } else {
        assert ab[x] in a && ab[y] in b;
      }
    }
  }

  /** No tuple comes before itself, so an ascending sequence has no duplicates. */
  lemma AscendingNoDup(r: seq<seq<int>>)
    requires Ascending(r)
    ensures NoDup(r)
  {
    forall x, y | 0 <= x < y < |r| ensures r[x] != r[y] {
      assert Before(r[x], r[y]);
      var d :| FirstDifference(r[x], r[y], d);
    }
  }

  /**
   * The index tuples createBaseVariables visits: every tuple within the limits, each once, in
   * lexicographic order with the last dimension varying fastest, as many as the product of the
   * dimensions' sizes.
   */
  function IndexTuples(limits: Limits): (r: seq<seq<int>>)
    requires |limits| > 0
    ensures forall t :: t in r <==> InRange(limits, t, 0)
    ensures Ascending(r) && NoDup(r)
    ensures |r| == Count(limits)
  {
    var r := RecurseForEachValue(limits, [], limits[0].0);
    AscendingNoDup(r);
    assert limits[1..] == limits[0 + 1..];
    r
  }

  // ---------------------------------------------------------------------------------------
  // Variable names and matrix access
  // ---------------------------------------------------------------------------------------

  /** The part instantiateBaseVar appends for one index: _k_. */
  function Group(k: int): string {
    "_" + IntToString(k) + "_"
  }

  /** The groups of all the keys, in order. */
  function Suffix(keys: seq<int>): string
    decreases |keys|
  {
    if keys == [] then "" else Group(keys[0]) + Suffix(keys[1..])
  }

  /** instantiateBaseVar's variable name: the matrix name, then _k_ for each index in order. */
  function VarName(name: string, keys: seq<int>): string {
    name + Suffix(keys)
  }

  /** The matrix access asMatrixAccess writes for the keys: [k] for each index in order. */
  function Access(keys: seq<int>): string
    decreases |keys|
  {
    if keys == [] then "" else "[" + IntToString(keys[0]) + "]" + Access(keys[1..])
  }

  /** Distinct index tuples get distinct suffixes: the underscores delimit the numbers. */
  lemma {:induction false} SuffixInjective(a: seq<int>, b: seq<int>)
    requires Suffix(a) == Suffix(b)
    ensures a == b
    decreases |a|
  {
    if a != [] && b != [] {
      GroupsAgree(IntToString(a[0]), IntToString(b[0]), Suffix(a[1..]), Suffix(b[1..]));
      IntToStringInjective(a[0], b[0]);
      SuffixInjective(a[1..], b[1..]);
      assert a == [a[0]] + a[1..] && b == [b[0]] + b[1..];
    }
  }

  /** Two strings that each start with one _x_ group, x free of "_", start with the same one. */
  lemma GroupsAgree(sa: string, sb: string, ra: string, rb: string)
    requires '_' !in sa && '_' !in sb
    requires "_" + sa + "_" + ra == "_" + sb + "_" + rb
    ensures sa == sb && ra == rb
  {
    var u := "_" + sa + "_" + ra;
    var ja, jb := |sa| + 1, |sb| + 1;
    assert u[ja] == '_' && u[jb] == '_';
    assert forall x | 1 <= x < ja :: u[x] == sa[x - 1];
    assert forall x | 1 <= x < jb :: u[x] == sb[x - 1];
    assert ja == jb;
    assert sa == u[1..ja] == sb;
    assert ra == u[ja + 1..] == rb;
  }

  /** Variables of one matrix for distinct index tuples have distinct names. */
  lemma VarNameInjective(name: string, a: seq<int>, b: seq<int>)
    requires VarName(name, a) == VarName(name, b)
    ensures a == b
  {
    assert Suffix(a) == VarName(name, a)[|name|..] == VarName(name, b)[|name|..] == Suffix(b);
    SuffixInjective(a, b);
  }

  /** lastIndexOf(c): the last position holding c, or -1. */
  function LastIndexOf(s: string, c: char): (r: int)
    ensures -1 <= r < |s|
    ensures r >= 0 ==> s[r] == c
    ensures forall j | r < j < |s| :: s[j] != c
    decreases |s|
  {
    if s == [] then -1
    else if s[|s| - 1] == c then |s| - 1
    else LastIndexOf(s[..|s| - 1], c)
  }

  /**
   * asMatrixAccess: from the back of the name, while the last "_" ends the name or stands
   * before a "[", it becomes "]" and the "_" before it becomes "[". setCharAt(-1), when no
   * such "_" is left, throws.
   */
  function AsMatrixAccess(s: string): (r: Result<string>)
    ensures r.Err? ==> r.fault == IndexOutOfRange
    ensures s == [] ==> r == Err(IndexOutOfRange)
    ensures s != [] && s[|s| - 1] != '_' && '[' !in s ==> r == Ok(s)
    ensures s != [] && s[|s| - 1] == '_' && '_' !in s[..|s| - 1] ==> r == Err(IndexOutOfRange)
    decreases multiset(s)['_']
  {
    var end := LastIndexOf(s, '_');
    if end == |s| - 1 || s[end + 1] == '[' then
      if end < 0 then Err(IndexOutOfRange)
      else
        var s1 := s[end := ']'];
        var start := LastIndexOf(s1, '_');
        if start < 0 then Err(IndexOutOfRange)
        else
          var s2 := s1[start := '['];
          assert multiset(s2)['_'] + 2 == multiset(s)['_'];
          AsMatrixAccess(s2)
    else
      assert '[' !in s ==> s[end + 1] != '[';
      Ok(s)
  }

  /** One turn of asMatrixAccess: the last _x_ group, followed by nothing or by "[", becomes [x]. */
  lemma ConvertLast(p: string, x: string, rest: string)
    requires '_' !in x && '_' !in rest && (rest == [] || rest[0] == '[')
    ensures AsMatrixAccess(p + "_" + x + "_" + rest) == AsMatrixAccess(p + "[" + x + "]" + rest)
  {
    var s := p + "_" + x + "_" + rest;
    var e := |p| + |x| + 1;
    var s1 := s[e := ']'];
    ClosingLayout(p, x, rest);
    LastAt(s, '_', e);
    OpeningLayout(p, x, rest);
    LastAt(s1, '_', |p|);
    AccessStep(s, e, |p|);
  }

  /** The "_" closing the last group is the last "_" of the name. */
  lemma ClosingLayout(p: string, x: string, rest: string)
    requires '_' !in x && '_' !in rest
    ensures var s := p + "_" + x + "_" + rest; var e := |p| + |x| + 1;
      && e < |s| && s[e] == '_' && (forall j | e < j < |s| :: s[j] != '_')
      && s[e := ']'] == p + "_" + x + "]" + rest
  {
    var s := p + "_" + x + "_" + rest;
    var e := |p| + |x| + 1;
    assert forall j | e < j < |s| :: s[j] == rest[j - e - 1];
  }

  /** Once the closing "_" is "]", the "_" opening the group is the last one. */
  lemma OpeningLayout(p: string, x: string, rest: string)
    requires '_' !in x && '_' !in rest
    ensures var s1 := p + "_" + x + "]" + rest;
      && |p| < |s1| && s1[|p|] == '_' && (forall j | |p| < j < |s1| :: s1[j] != '_')
      && s1[|p| := '['] == p + "[" + x + "]" + rest
  {
    var s1 := p + "_" + x + "]" + rest;
    assert forall j | |p| < j < |s1| :: s1[j] == (x + "]" + rest)[j - |p| - 1];
  }

  /** The last position holding c is the one after which no c follows. */
  lemma LastAt(s: string, c: char, e: int)
    requires 0 <= e < |s| && s[e] == c && forall j | e < j < |s| :: s[j] != c
    ensures LastIndexOf(s, c) == e
  {
    var r := LastIndexOf(s, c);
    assert !(r < e) && !(e < r);
  }

  /** asMatrixAccess turning the "_" at end into "]" and the "_" at start into "[". */
  lemma AccessStep(s: string, end: int, start: int)
    requires 0 <= end < |s| && LastIndexOf(s, '_') == end && (end == |s| - 1 || s[end + 1] == '[')
    requires LastIndexOf(s[end := ']'], '_') == start && start >= 0
    ensures AsMatrixAccess(s) == AsMatrixAccess(s[end := ']'][start := '['])
  {
  }

  /** Integer.toString writes no underscore, so neither do the accesses built from it. */
  lemma AccessPlain(keys: seq<int>)
    ensures '_' !in Access(keys)
    ensures keys != [] ==> Access(keys)[0] == '['
  {
    if keys != [] {
      assert '_' !in IntToString(keys[0]);
      AccessPlain(keys[1..]);
    }
  }

  /** The groups of keys then k are the groups of keys followed by the group of k. */
  lemma {:induction false} SuffixAppend(keys: seq<int>, k: int)
    ensures Suffix(keys + [k]) == Suffix(keys) + Group(k)
    decreases |keys|
  {
    if keys != [] {
      assert (keys + [k])[1..] == keys[1..] + [k];
      SuffixAppend(keys[1..], k);
    }
  }

  /** A name asMatrixAccess leaves alone: not empty, not starting with "[", free of "_". */
  predicate PlainName(name: string) {
    name != [] && name[0] != '[' && '_' !in name
  }

  /**
   * The round trip of the naming: for a plain matrix name, asMatrixAccess of the name
   * instantiateBaseVar gives to the variable at keys is name[k1][k2]...
   */
  lemma AccessOfVarName(name: string, keys: seq<int>)
    requires PlainName(name)
    ensures AsMatrixAccess(VarName(name, keys)) == Ok(name + Access(keys))
  {
    assert keys[..|keys|] == keys && keys[|keys|..] == [];
    assert Mixed(name, keys, |keys|) == VarName(name, keys);
    PartlyConverted(name, keys, |keys|);
  }

  /** The name halfway through asMatrixAccess: the first j groups still to convert. */
  function Mixed(name: string, keys: seq<int>, j: nat): string
    requires j <= |keys|
  {
    name + Suffix(keys[..j]) + Access(keys[j..])
  }

  lemma {:induction false} PartlyConverted(name: string, keys: seq<int>, j: nat)
    requires PlainName(name) && j <= |keys|
    ensures AsMatrixAccess(Mixed(name, keys, j)) == Ok(name + Access(keys))
    decreases j
  {
    if j == 0 {
      NoneConverted(name, keys);
    } else {
      AccessPlain(keys[j..]);
      MixedBefore(name, keys, j);
      MixedAfter(name, keys, j);
      ConvertLast(name + Suffix(keys[..j - 1]), IntToString(keys[j - 1]), Access(keys[j..]));
      PartlyConverted(name, keys, j - 1);
    }
  }

  lemma NoneConverted(name: string, keys: seq<int>)
    requires PlainName(name)
    ensures AsMatrixAccess(Mixed(name, keys, 0)) == Ok(name + Access(keys))
  {
    AccessPlain(keys);
    var s := name + Access(keys);
    assert keys[0..] == keys && keys[..0] == [];
    assert Mixed(name, keys, 0) == s;
    assert LastIndexOf(s, '_') == -1;
  }

  /** The name before one turn, cut around the group of the j-th key. */
  lemma MixedBefore(name: string, keys: seq<int>, j: nat)
    requires 0 < j <= |keys|
    ensures Mixed(name, keys, j) == name + Suffix(keys[..j - 1]) + "_" + IntToString(keys[j - 1]) + "_" + Access(keys[j..])
  {
    assert keys[..j] == keys[..j - 1] + [keys[j - 1]];
    SuffixAppend(keys[..j - 1], keys[j - 1]);
    GroupRegroup(name, Suffix(keys[..j - 1]), IntToString(keys[j - 1]), Access(keys[j..]));
  }

  /** Concatenation regrouped around a group "_n_". */
  lemma GroupRegroup(name: string, front: string, n: string, back: string)
    ensures name + (front + ("_" + n + "_")) + back == name + front + "_" + n + "_" + back
  {
  }

  /** The name after one turn: the group of the j-th key is now its access. */
  lemma MixedAfter(name: string, keys: seq<int>, j: nat)
    requires 0 < j <= |keys|
    ensures Mixed(name, keys, j - 1) == name + Suffix(keys[..j - 1]) + "[" + IntToString(keys[j - 1]) + "]" + Access(keys[j..])
  {
    assert keys[j - 1..][1..] == keys[j..];
  }

  // ---------------------------------------------------------------------------------------
  // Splitting text built with known separators
  // ---------------------------------------------------------------------------------------

  /**
   * For a separator whose first character does not recur in it, a first part free of the
   * separator is cut off whole, whatever follows.
   */
  lemma SplitFirst(a: string, sep: string, b: string)
    requires |sep| > 0 && sep[0] !in sep[1..] && Free(a, sep)
    ensures SplitAll(a + sep + b, sep) == [a] + SplitAll(b, sep)
  {
    var s := a + sep + b;
    assert OccursAt(s, sep, |a|) by {
      assert s[|a|..|a| + |sep|] == sep;
    }
    forall k | 0 <= k < |a| && k + |sep| <= |a| ensures !OccursAt(s, sep, k) {
      assert a[k..k + |sep|] == s[k..k + |sep|];
      assert !OccursAt(a, sep, k);
    }
    forall k | 0 <= k < |a| < k + |sep| ensures !OccursAt(s, sep, k) {
      assert s[|a|] == sep[0];
      assert sep[|a| - k] == sep[1..][|a| - k - 1];
    }
    assert IndexFrom(s, sep, 0) == |a|;
    assert s[..|a|] == a && s[|a| + |sep|..] == b;
  }

  /** A string free of the separator splits into itself alone. */
  lemma SplitFree(s: string, sep: string)
    requires |sep| > 0 && Free(s, sep)
    ensures SplitAll(s, sep) == [s]
  {
  }

  /** A string without the character c is free of the one-character separator c. */
  lemma CharFree(s: string, c: char)
    requires c !in s
    ensures Free(s, [c])
  {
    forall k | 0 <= k < |s| ensures !OccursAt(s, [c], k) {
      assert s[k..k + 1] == [s[k]];
    }
  }

  /** Parts without c, joined with c, split back into the same parts. */
  lemma {:induction false} SplitJoin(parts: seq<string>, c: char)
    requires |parts| >= 1 && forall i | 0 <= i < |parts| :: c !in parts[i]
    ensures SplitAll(Join(parts, [c]), [c]) == parts
    decreases |parts|
  {
    CharFree(parts[0], c);
    if |parts| == 1 {
      SplitFree(parts[0], [c]);
    } else {
      SplitFirst(parts[0], [c], Join(parts[1..], [c]));
      SplitJoin(parts[1..], c);
    }
  }

  /** As SplitJoin, for String.split: with no part empty, none is dropped. */
  lemma JavaSplitJoin(parts: seq<string>, c: char)
    requires |parts| >= 1 && forall i | 0 <= i < |parts| :: c !in parts[i] && parts[i] != ""
    ensures JavaSplit(Join(parts, [c]), [c]) == parts
  {
    SplitJoin(parts, c);
  }

  // ---------------------------------------------------------------------------------------
  // Declarations
  // ---------------------------------------------------------------------------------------

  const MatrixKeyword: string := "matrix"
  const NameValueSeparator: string := ":"
  const IndexesValuesSeparator: string := "of values"
  const DomainSeparator: string := ";"
  const ValuesSeparator: string := ","

  /**
   * A parsed matrix declaration: its name, the first and last index of each dimension, and the
   * least and greatest value of its entries.
   */
  datatype MatrixDecl = MatrixDecl(name: string, limits: Limits, min: int, max: int)

  /** raw is lo, the character c, then a non-empty hi, with no other c. */
  ghost predicate CutAt(raw: string, c: char, lo: string, hi: string) {
    raw == lo + [c] + hi && c !in lo && c !in hi && hi != ""
  }

  /**
   * parseMinMax: two expressions separated by one ",". The expression evaluator (mxparser,
   * with the cast of its double result to int) is the parameter eval, None standing for NaN.
   */
  function ParseMinMax(raw: string, eval: string -> Option<int>): (r: Result<(int, int)>)
    ensures r.Err? ==> r.fault == IllegalArgument
    ensures Separators(raw, ValuesSeparator) != 1 ==> r.Err?
    ensures r.Ok? ==> exists lo, hi :: (CutAt(raw, ',', lo, hi)
      && eval(Trim(lo)) == Some(r.value.0) && eval(Trim(hi)) == Some(r.value.1))
  {
    var (lo, hi) :- SplitExactlyOnce(raw, ValuesSeparator);
    FreeChar(lo, ',');
    FreeChar(hi, ',');
    assert CutAt(raw, ',', lo, hi);
    var min :- if eval(Trim(lo)).Some? then Ok(eval(Trim(lo)).value) else Err(IllegalArgument);
    var max :- if eval(Trim(hi)).Some? then Ok(eval(Trim(hi)).value) else Err(IllegalArgument);
    Ok((min, max))
  }

  /** Cut at its one ",", a string parses exactly when both sides evaluate, to their values. */
  lemma ParseMinMaxCut(raw: string, lo: string, hi: string, eval: string -> Option<int>)
    requires CutAt(raw, ',', lo, hi)
    ensures ParseMinMax(raw, eval) ==
      if eval(Trim(lo)).Some? && eval(Trim(hi)).Some? then Ok((eval(Trim(lo)).value, eval(Trim(hi)).value))
      else Err(IllegalArgument)
  {
    CharFree(lo, ',');
    CharFree(hi, ',');
    SplitFirst(lo, ",", hi);
    SplitFree(hi, ",");
  }

  /** ParseMinMaxCut for sides that evaluate to a and b. */
  lemma ParseMinMaxOf(raw: string, lo: string, hi: string, eval: string -> Option<int>, a: int, b: int)
    requires CutAt(raw, ',', lo, hi) && eval(Trim(lo)) == Some(a) && eval(Trim(hi)) == Some(b)
    ensures ParseMinMax(raw, eval) == Ok((a, b))
  {
    ParseMinMaxCut(raw, lo, hi, eval);
  }

  /** A string free of the one-character separator c holds no c. */
  lemma FreeChar(s: string, c: char)
    requires Free(s, [c])
    ensures c !in s
  {
    forall k | 0 <= k < |s| ensures s[k] != c {
      assert !OccursAt(s, [c], k);
      assert s[k..k + 1] == [s[k]];
    }
  }

  /** parseLimits: the limits of each dimension in turn; the first that does not parse throws. */
  function ParseLimits(dims: seq<string>, eval: string -> Option<int>): (r: Result<Limits>)
    ensures r.Err? ==> r.fault == IllegalArgument
    ensures r.Ok? <==> forall i | 0 <= i < |dims| :: ParseMinMax(dims[i], eval).Ok?
    ensures r.Ok? ==> |r.value| == |dims| && forall i | 0 <= i < |dims| :: ParseMinMax(dims[i], eval) == Ok(r.value[i])
    decreases |dims|
  {
    if dims == [] then Ok([])
    else
      var first := ParseMinMax(dims[0], eval);
      var rest := ParseLimits(dims[1..], eval);
      LimitsStep(dims, d => ParseMinMax(d, eval), rest);
      if first.Err? then Err(first.fault)
      else if rest.Err? then Err(rest.fault)
      else Ok([first.value] + rest.value)
  }

  /** How the first item and the others make up the item-wise parse f of all of them. */
  lemma LimitsStep<T>(dims: seq<string>, f: string -> Result<T>, rest: Result<seq<T>>)
    requires |dims| > 0
    requires rest.Ok? <==> forall i | 0 <= i < |dims| - 1 :: f(dims[1..][i]).Ok?
    requires rest.Ok? ==> |rest.value| == |dims| - 1
    requires rest.Ok? ==> forall i | 0 <= i < |dims| - 1 :: f(dims[1..][i]) == Ok(rest.value[i])
    ensures (f(dims[0]).Ok? && rest.Ok?) <==> forall i | 0 <= i < |dims| :: f(dims[i]).Ok?
    ensures f(dims[0]).Ok? && rest.Ok? ==>
      forall i | 0 <= i < |dims| :: f(dims[i]) == Ok(([f(dims[0]).value] + rest.value)[i])
  {
    forall i | 1 <= i < |dims| ensures dims[i] == dims[1..][i - 1] { }
  }

  /**
   * decl is the head, the one ":", then the indexes, the one "of values" and the values: the
   * cut Matrix.parse makes.
   */
  ghost predicate DeclParts(decl: string, head: string, indexes: string, values: string) {
    && decl == head + NameValueSeparator + (indexes + IndexesValuesSeparator + values)
    && Free(head, NameValueSeparator) && Free(indexes + IndexesValuesSeparator + values, NameValueSeparator)
    && Free(indexes, IndexesValuesSeparator) && Free(values, IndexesValuesSeparator)
  }

  /**
   * The parsing part of Matrix.parse: the name after "matrix" and before the one ":", the
   * bracketed dimensions before the one "of values", each "lo,hi" and separated by ";", and the
   * values after it. Each malformed part throws IllegalArgumentException; a head shorter than
   * "matrix" makes substring throw.
   */
  function ParseDeclaration(decl: string, eval: string -> Option<int>): (r: Result<MatrixDecl>)
    ensures r.Err? ==> r.fault == IllegalArgument || r.fault == IndexOutOfRange
    ensures Separators(decl, NameValueSeparator) != 1 ==> r == Err(IllegalArgument)
    ensures r.Ok? ==> exists head, indexes, values :: (DeclParts(decl, head, indexes, values)
      && |head| >= |MatrixKeyword| && r.value.name == Trim(head[|MatrixKeyword|..])
      && StartsWith(Trim(indexes), '[') && EndsWith(Trim(indexes), ']')
      && ParseMinMax(values, eval) == Ok((r.value.min, r.value.max)))
  {
    var (head, body) :- SplitExactlyOnce(decl, NameValueSeparator);
    if |head| < |MatrixKeyword| then Err(IndexOutOfRange)
    else
      var name := Trim(head[|MatrixKeyword|..]);
      var (indexes, values) :- SplitExactlyOnce(body, IndexesValuesSeparator);
      var brackets := Trim(indexes);
      if !StartsWith(brackets, '[') || !EndsWith(brackets, ']') then Err(IllegalArgument)
      else
        var dims := JavaSplit(brackets[1..|brackets| - 1], DomainSeparator);
        var limits :- ParseLimits(dims, eval);
        var minMax :- ParseMinMax(values, eval);
        assert DeclParts(decl, head, indexes, values);
        Ok(MatrixDecl(name, limits, minMax.0, minMax.1))
  }

  // ---------------------------------------------------------------------------------------
  // Base variables
  // ---------------------------------------------------------------------------------------

  /** id is the name of the base variable for some index tuple within the limits. */
  ghost predicate BaseName(d: MatrixDecl, id: string) {
    exists t :: InRange(d.limits, t, 0) && id == VarName(d.name, t)
  }

  /**
   * createBaseVariables: one fresh base variable with domain min..max per index tuple, named
   * after the matrix and the tuple, in the order the recursion visits the tuples. A matrix
   * without dimensions makes recurseForEachValue read limits[0] and throw.
   */
  function CreateBaseVariables(d: MatrixDecl): (r: Result<seq<Variable<string>>>)
    ensures r.Err? <==> |d.limits| == 0
    ensures r.Err? ==> r.fault == IndexOutOfRange
    ensures r.Ok? ==> |r.value| == Count(d.limits)
    ensures r.Ok? ==> forall n | 0 <= n < |r.value| ::
      r.value[n].value == None && forall x :: x in r.value[n].domain <==> d.min <= x <= d.max
    ensures r.Ok? ==> forall t :: InRange(d.limits, t, 0) ==>
      exists n | 0 <= n < |r.value| :: r.value[n].id == VarName(d.name, t)
    ensures r.Ok? ==> forall n | 0 <= n < |r.value| :: BaseName(d, r.value[n].id)
    ensures r.Ok? ==> forall i, j | 0 <= i < j < |r.value| :: r.value[i].id != r.value[j].id
  {
    if |d.limits| == 0 then Err(IndexOutOfRange)
    else
      var tuples := IndexTuples(d.limits);
      var vars := Instantiate(d.name, tuples, d.min, d.max);
      BaseVariablesFacts(d, tuples, vars);
      Ok(vars)
  }

  /** instantiateBaseVar for each tuple in turn. */
  function Instantiate(name: string, tuples: seq<seq<int>>, min: int, max: int): (vars: seq<Variable<string>>)
    ensures |vars| == |tuples|
    ensures forall n | 0 <= n < |vars| :: vars[n].id == VarName(name, tuples[n]) && vars[n].value == None
    ensures forall n | 0 <= n < |vars| :: forall x :: x in vars[n].domain <==> min <= x <= max
  {
    seq(|tuples|, n requires 0 <= n < |tuples| => NewVariable(VarName(name, tuples[n]), min, max))
  }

  /** The variables instantiated for the index tuples are as createBaseVariables promises. */
  lemma BaseVariablesFacts(d: MatrixDecl, tuples: seq<seq<int>>, vars: seq<Variable<string>>)
    requires forall t :: t in tuples <==> InRange(d.limits, t, 0)
    requires NoDup(tuples) && |tuples| == Count(d.limits)
    requires vars == Instantiate(d.name, tuples, d.min, d.max)
    ensures |vars| == Count(d.limits)
    ensures forall n | 0 <= n < |vars| ::
      vars[n].value == None && forall x :: x in vars[n].domain <==> d.min <= x <= d.max
    ensures forall t :: InRange(d.limits, t, 0) ==> exists n | 0 <= n < |vars| :: vars[n].id == VarName(d.name, t)
    ensures forall n | 0 <= n < |vars| :: BaseName(d, vars[n].id)
    ensures forall i, j | 0 <= i < j < |vars| :: vars[i].id != vars[j].id
  {
    NamesDistinct(d.name, tuples);
    forall t | InRange(d.limits, t, 0)
      ensures exists n | 0 <= n < |vars| :: vars[n].id == VarName(d.name, t)
    {
      var n :| 0 <= n < |tuples| && tuples[n] == t;
      assert vars[n].id == VarName(d.name, t);
    }
    forall n | 0 <= n < |vars| ensures BaseName(d, vars[n].id) {
      assert tuples[n] in tuples;
      assert InRange(d.limits, tuples[n], 0);
    }
  }

  /** Distinct index tuples give distinct variable names. */
  lemma NamesDistinct(name: string, tuples: seq<seq<int>>)
    requires NoDup(tuples)
    ensures forall i, j | 0 <= i < j < |tuples| :: VarName(name, tuples[i]) != VarName(name, tuples[j])
  {
    forall i, j | 0 <= i < j < |tuples| ensures VarName(name, tuples[i]) != VarName(name, tuples[j]) {
      if VarName(name, tuples[i]) == VarName(name, tuples[j]) {
        VarNameInjective(name, tuples[i], tuples[j]);
      }
    }
  }

  /**
   * Matrix.parse: the declaration parsed, then its base variables created. Every failure is an
   * exception; the documented null result never occurs.
   */
  function Parse(decl: string, eval: string -> Option<int>): (r: Result<seq<Variable<string>>>)
    ensures r.Ok? <==> ParseDeclaration(decl, eval).Ok? && |ParseDeclaration(decl, eval).value.limits| > 0
    ensures r.Ok? ==> |r.value| == Count(ParseDeclaration(decl, eval).value.limits)
    ensures Separators(decl, NameValueSeparator) != 1 ==> r == Err(IllegalArgument)
  {
    var d :- ParseDeclaration(decl, eval);
    CreateBaseVariables(d)
  }

  // ---------------------------------------------------------------------------------------
  // Writing a declaration and reading it back
  // ---------------------------------------------------------------------------------------

  /** lo,hi as a declaration writes a range. */
  function RenderPair(l: (int, int)): string {
    IntToString(l.0) + ValuesSeparator + IntToString(l.1)
  }

  function RenderDims(limits: Limits): (dims: seq<string>)
    ensures |dims| == |limits| && forall i | 0 <= i < |limits| :: dims[i] == RenderPair(limits[i])
  {
    seq(|limits|, i requires 0 <= i < |limits| => RenderPair(limits[i]))
  }

  /** The part before the ":": the keyword and the name. */
  function RenderHead(name: string): string {
    MatrixKeyword + " " + name + " "
  }

  /** The bracketed dimensions, one range each, separated by ";". */
  function RenderIndexes(limits: Limits): string {
    " " + ("[" + Join(RenderDims(limits), DomainSeparator) + "]") + " "
  }

  function RenderValues(min: int, max: int): string {
    " " + RenderPair((min, max))
  }

  /** A declaration as the problem files write one: matrix m : [1,3; 0,2] of values 0,9. */
  function Render(d: MatrixDecl): string {
    RenderHead(d.name) + NameValueSeparator + (RenderIndexes(d.limits) + IndexesValuesSeparator + RenderValues(d.min, d.max))
  }

  /** eval reads back every number Integer.toString writes. */
  ghost predicate ReadsNumbers(eval: string -> Option<int>) {
    forall k :: eval(IntToString(k)) == Some(k)
  }

  /**
   * A well-formed declaration written out parses back to itself: the name has no ":" and no
   * blank at either end, and there is at least one dimension.
   */
  lemma ParseRendered(d: MatrixDecl, eval: string -> Option<int>)
    requires ReadsNumbers(eval) && ':' !in d.name && Trim(d.name) == d.name && |d.limits| > 0
    ensures ParseDeclaration(Render(d), eval) == Ok(d)
  {
    var head, indexes, values := RenderHead(d.name), RenderIndexes(d.limits), RenderValues(d.min, d.max);
    var body := indexes + IndexesValuesSeparator + values;
    RenderedCut(d, head, body);
    RenderedName(d.name);
    RenderedBody(d, indexes, values);
    RenderedIndexes(d.limits, eval);
    RenderedValues(d.min, d.max, eval);
    ParseDeclarationOf(Render(d), eval, head, indexes, values, d.limits, d.min, d.max);
  }

  /** ParseDeclaration, given how each of its steps turns out. */
  lemma ParseDeclarationOf(decl: string, eval: string -> Option<int>, head: string, indexes: string, values: string,
                           limits: Limits, min: int, max: int)
    requires SplitExactlyOnce(decl, NameValueSeparator) == Ok((head, indexes + IndexesValuesSeparator + values))
    requires |head| >= |MatrixKeyword|
    requires SplitExactlyOnce(indexes + IndexesValuesSeparator + values, IndexesValuesSeparator) == Ok((indexes, values))
    requires var b := Trim(indexes);
      && StartsWith(b, '[') && EndsWith(b, ']')
      && ParseLimits(JavaSplit(b[1..|b| - 1], DomainSeparator), eval) == Ok(limits)
    requires ParseMinMax(values, eval) == Ok((min, max))
    ensures ParseDeclaration(decl, eval) == Ok(MatrixDecl(Trim(head[|MatrixKeyword|..]), limits, min, max))
  {
  }

  /** Writing a declaration and parsing it yields its base variables. */
  lemma ParseRenderedVariables(d: MatrixDecl, eval: string -> Option<int>)
    requires ReadsNumbers(eval) && ':' !in d.name && Trim(d.name) == d.name && |d.limits| > 0
    ensures Parse(Render(d), eval) == CreateBaseVariables(d)
    ensures Parse(Render(d), eval).Ok?
  {
    ParseRendered(d, eval);
  }

  /** The one ":" of a written declaration is the one after the name. */
  lemma RenderedCut(d: MatrixDecl, head: string, body: string)
    requires ':' !in d.name && head == RenderHead(d.name)
    requires body == RenderIndexes(d.limits) + IndexesValuesSeparator + RenderValues(d.min, d.max)
    ensures SplitExactlyOnce(Render(d), NameValueSeparator) == Ok((head, body))
  {
    assert ':' !in head;
    RenderedChars(d.limits, d.min, d.max);
    CutOnce(head, NameValueSeparator, body);
  }

  /** After the keyword, the head trims to the name. */
  lemma RenderedName(name: string)
    requires Trim(name) == name
    ensures |RenderHead(name)| >= |MatrixKeyword| && Trim(RenderHead(name)[|MatrixKeyword|..]) == name
  {
    HeadAfterKeyword(name);
    TrimSpaced(" ", name, " ");
  }

  /** What follows the keyword in the head: the name between two blanks. */
  lemma HeadAfterKeyword(name: string)
    ensures |RenderHead(name)| >= |MatrixKeyword| && RenderHead(name)[|MatrixKeyword|..] == " " + name + " "
  {
    var rest := " " + name + " ";
    assert RenderHead(name) == MatrixKeyword + rest;
    DropPrefix(MatrixKeyword, rest);
  }

  lemma DropPrefix(a: string, b: string)
    ensures (a + b)[|a|..] == b
  {
  }

  /** The one "of values" of a written declaration's body is the one after the brackets. */
  lemma RenderedBody(d: MatrixDecl, indexes: string, values: string)
    requires indexes == RenderIndexes(d.limits) && values == RenderValues(d.min, d.max)
    ensures SplitExactlyOnce(indexes + IndexesValuesSeparator + values, IndexesValuesSeparator) == Ok((indexes, values))
  {
    RenderedChars(d.limits, d.min, d.max);
    CutOnce(indexes, IndexesValuesSeparator, values);
  }

  /** The written dimensions and values hold neither ":" nor the "o" that starts "of values". */
  lemma RenderedChars(limits: Limits, min: int, max: int)
    ensures ':' !in RenderIndexes(limits) + IndexesValuesSeparator + RenderValues(min, max)
    ensures 'o' !in RenderIndexes(limits) && 'o' !in RenderValues(min, max)
  {
    DimsNumeric(limits);
    PairNumeric((min, max));
    SurroundedChars(Join(RenderDims(limits), DomainSeparator), RenderPair((min, max)));
  }

  lemma SurroundedChars(inner: string, pair: string)
    requires Numeric(inner) && Numeric(pair)
    ensures ':' !in " " + ("[" + inner + "]") + " " + IndexesValuesSeparator + " " + pair
    ensures 'o' !in " " + ("[" + inner + "]") + " " && 'o' !in " " + pair
  {
    NumericFacts(inner);
    NumericFacts(pair);
  }

  /**
   * A separator whose first character occurs neither in a, nor in b, nor again in itself cuts
   * a + sep + b exactly once, into a and b.
   */
  lemma CutOnce(a: string, sep: string, b: string)
    requires |sep| > 0 && sep[0] !in a && sep[0] !in b && sep[0] !in sep[1..] && b != ""
    ensures SplitExactlyOnce(a + sep + b, sep) == Ok((a, b))
  {
    FirstCharFree(a, sep);
    FirstCharFree(b, sep);
    SplitFirst(a, sep, b);
    SplitFree(b, sep);
  }

  /** The written dimensions trim to a bracketed list that parses back to the limits. */
  lemma RenderedIndexes(limits: Limits, eval: string -> Option<int>)
    requires ReadsNumbers(eval) && |limits| > 0
    ensures var b := Trim(RenderIndexes(limits));
      && StartsWith(b, '[') && EndsWith(b, ']')
      && ParseLimits(JavaSplit(b[1..|b| - 1], DomainSeparator), eval) == Ok(limits)
  {
    var dims := RenderDims(limits);
    var inner := Join(dims, DomainSeparator);
    BracketsTrim(inner);
    var b := Trim(RenderIndexes(limits));
    assert b[1..|b| - 1] == inner;
    SplitDims(limits);
    ParseDims(limits, eval);
  }

  lemma BracketsTrim(inner: string)
    ensures Trim(" " + ("[" + inner + "]") + " ") == "[" + inner + "]"
  {
    var x := "[" + inner + "]";
    assert x[0] == '[' && x[|x| - 1] == ']';
    TrimSpaced(" ", x, " ");
  }

  /** The written list of ranges splits back into the written ranges. */
  lemma SplitDims(limits: Limits)
    requires |limits| > 0
    ensures JavaSplit(Join(RenderDims(limits), DomainSeparator), DomainSeparator) == RenderDims(limits)
  {
    var dims := RenderDims(limits);
    forall i | 0 <= i < |dims| ensures ';' !in dims[i] && dims[i] != "" {
      PairNumeric(limits[i]);
    }
    JavaSplitJoin(dims, ';');
  }

  /** The written ranges parse back to the limits. */
  lemma ParseDims(limits: Limits, eval: string -> Option<int>)
    requires ReadsNumbers(eval)
    ensures ParseLimits(RenderDims(limits), eval) == Ok(limits)
  {
    var dims := RenderDims(limits);
    forall i | 0 <= i < |dims| ensures ParseMinMax(dims[i], eval) == Ok(limits[i]) {
      RenderedPair(limits[i], eval);
    }
    var r := ParseLimits(dims, eval);
    assert r.value == limits;
  }

  /** The written values parse back to the least and greatest value. */
  lemma RenderedValues(min: int, max: int, eval: string -> Option<int>)
    requires ReadsNumbers(eval)
    ensures ParseMinMax(RenderValues(min, max), eval) == Ok((min, max))
  {
    var lo, hi := IntToString(min), IntToString(max);
    ValuesCut(min, max);
    assert eval(Trim(" " + lo)) == Some(min) && eval(Trim(hi)) == Some(max);
    ParseMinMaxOf(RenderValues(min, max), " " + lo, hi, eval, min, max);
  }

  /** The written values are cut at their one "," into the two numbers, the first after a space. */
  lemma ValuesCut(min: int, max: int)
    ensures CutAt(RenderValues(min, max), ',', " " + IntToString(min), IntToString(max))
    ensures Trim(" " + IntToString(min)) == IntToString(min) && Trim(IntToString(max)) == IntToString(max)
  {
    var lo, hi := IntToString(min), IntToString(max);
    NumberFacts(min);
    NumberFacts(max);
    SpacedCut(lo, hi);
    TrimSpaced(" ", lo, "");
    assert " " + lo + "" == " " + lo;
  }

  lemma SpacedCut(lo: string, hi: string)
    requires ',' !in lo && ',' !in hi && hi != ""
    ensures CutAt(" " + (lo + ValuesSeparator + hi), ',', " " + lo, hi)
    ensures CutAt(lo + ValuesSeparator + hi, ',', lo, hi)
  {
    assert " " + (lo + ValuesSeparator + hi) == (" " + lo) + [','] + hi;
  }

  /** A written range parses back to itself. */
  lemma RenderedPair(l: (int, int), eval: string -> Option<int>)
    requires ReadsNumbers(eval)
    ensures ParseMinMax(RenderPair(l), eval) == Ok(l)
  {
    var lo, hi := IntToString(l.0), IntToString(l.1);
    NumberFacts(l.0);
    NumberFacts(l.1);
    SpacedCut(lo, hi);
    assert eval(Trim(lo)) == Some(l.0) && eval(Trim(hi)) == Some(l.1);
    ParseMinMaxOf(RenderPair(l), lo, hi, eval, l.0, l.1);
  }

  /** Characters of written numbers and of the separators between them. */
  predicate NumericChar(c: char) {
    IsDigit(c) || c == '-' || c == ',' || c == ';'
  }

  predicate Numeric(s: string) {
    forall i | 0 <= i < |s| :: NumericChar(s[i])
  }

  /** A written number holds no "," and needs no trimming. */
  lemma NumberFacts(k: int)
    ensures ',' !in IntToString(k) && Trim(IntToString(k)) == IntToString(k) && IntToString(k) != ""
  {
    var r := IntToString(k);
    assert NumericChar(r[0]) && NumericChar(r[|r| - 1]);
  }

  /** Numeric text holds no blank, no ":" and no "o", so trimming leaves it alone. */
  lemma NumericFacts(s: string)
    requires Numeric(s)
    ensures ':' !in s && 'o' !in s && Trim(s) == s
  {
    assert s != [] ==> NumericChar(s[0]) && NumericChar(s[|s| - 1]);
  }

  /** A written range is numeric, non-empty and holds no ";". */
  lemma PairNumeric(l: (int, int))
    ensures Numeric(RenderPair(l)) && ';' !in RenderPair(l) && RenderPair(l) != ""
  {
    var lo, hi := IntToString(l.0), IntToString(l.1);
    assert RenderPair(l) == lo + [','] + hi;
    forall i | 0 <= i < |RenderPair(l)| ensures NumericChar(RenderPair(l)[i]) && RenderPair(l)[i] != ';' {
      if i < |lo| {
        assert RenderPair(l)[i] == lo[i];
      } else if i > |lo| {
        assert RenderPair(l)[i] == hi[i - |lo| - 1];
      }
    }
  }

  /** Numeric parts joined with ";" are numeric. */
  lemma {:induction false} JoinNumeric(parts: seq<string>)
    requires forall i | 0 <= i < |parts| :: Numeric(parts[i])
    ensures Numeric(Join(parts, DomainSeparator))
    decreases |parts|
  {
    if |parts| > 1 {
      JoinNumeric(parts[1..]);
      var rest := Join(parts[1..], DomainSeparator);
      var j := Join(parts, DomainSeparator);
      assert j == parts[0] + [';'] + rest;
      forall i | 0 <= i < |j| ensures NumericChar(j[i]) {
        if i < |parts[0]| {
          assert j[i] == parts[0][i];
        } else if i > |parts[0]| {
          assert j[i] == rest[i - |parts[0]| - 1];
        }
      }
    }
  }

  /** The written list of ranges is numeric. */
  lemma DimsNumeric(limits: Limits)
    ensures Numeric(Join(RenderDims(limits), DomainSeparator))
  {
    var dims := RenderDims(limits);
    forall i | 0 <= i < |dims| ensures Numeric(dims[i]) {
      PairNumeric(limits[i]);
    }
    JoinNumeric(dims);
  }

  /** A string without the separator's first character is free of the separator. */
  lemma FirstCharFree(s: string, sep: string)
    requires |sep| > 0 && sep[0] !in s
    ensures Free(s, sep)
  {
    forall k | 0 <= k && k + |sep| <= |s| ensures !OccursAt(s, sep, k) {
      assert s[k..k + |sep|][0] == s[k] != sep[0];
    }
  }

  /** x neither starts nor ends with a blank. */
  predicate Unpadded(x: string) {
    x == [] || (!Blank(x[0]) && !Blank(x[|x| - 1]))
  }

  /** Trimming x with at most a space on either side gives x back, when x is trimmed already. */
  lemma TrimSpaced(pre: string, x: string, post: string)
    requires (pre == "" || pre == " ") && (post == "" || post == " ") && Trim(x) == x
    ensures Trim(pre + x + post) == x
  {
    assert Unpadded(x);
    TrimPadded(pre, x, post);
  }

  lemma TrimPadded(pre: string, x: string, post: string)
    requires (pre == "" || pre == " ") && (post == "" || post == " ") && Unpadded(x)
    ensures Trim(pre + x + post) == x
  {
    var t := x + post;
    assert pre + x + post == pre + t;
    StartPadded(pre, t);
    if x == [] {
      assert t == post;
      assert TrimStart(post) == [] by {
        if post == " " {
          assert post[1..] == [];
        }
      }
    } else {
      EndPadded(x, post);
    }
  }

  /** At most a space before t does not change where trimming t starts. */
  lemma StartPadded(pre: string, t: string)
    requires pre == "" || pre == " "
    ensures TrimStart(pre + t) == TrimStart(t)
  {
    if pre == " " {
      TrimStartSpace(t);
    } else {
      assert pre + t == t;
    }
  }

  /** x followed by at most a space, x non-empty and unpadded, trims to x. */
  lemma EndPadded(x: string, post: string)
    requires (post == "" || post == " ") && x != [] && !Blank(x[0]) && !Blank(x[|x| - 1])
    ensures TrimEnd(TrimStart(x + post)) == x
  {
    assert TrimStart(x + post) == x + post by {
      assert (x + post)[0] == x[0];
    }
    if post == " " {
      TrimEndSpace(x);
    } else {
      assert x + post == x;
    }
  }

  lemma TrimStartSpace(t: string)
    ensures TrimStart(" " + t) == TrimStart(t)
  {
    assert (" " + t)[1..] == t;
  }

  lemma TrimEndSpace(t: string)
    ensures TrimEnd(t + " ") == TrimEnd(t)
  {
    assert (t + " ")[..|t|] == t;
  }
}
