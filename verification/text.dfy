/** Sequence and string helpers shared by every module: the JavaScript string
    operations the source relies on (startsWith, includes, replace with a
    literal pattern, split, join) written out over seq<char>. */
module Wrappers {
  datatype Option<T> = None | Some(value: T)

  /** An optional array as the source's `?? []` reads it. */
  function OrEmpty<T>(o: Option<seq<T>>): seq<T> {
    if o.Some? then o.value else []
  }
}

module Seqs {
  /** No element occurs twice. */
  predicate Distinct<T(==)>(s: seq<T>) {
    forall i, j :: 0 <= i < j < |s| ==> s[i] != s[j]
  }

  /** Position of the first occurrence of x in s. */
  function IndexOf<T(==)>(s: seq<T>, x: T): (i: nat)
    requires x in s
    ensures i < |s| && s[i] == x && x !in s[..i]
  {
    if s[0] == x then 0 else 1 + IndexOf(s[1..], x)
  }

  /** x occurs in o strictly before y (by first occurrence). */
  predicate Before<T(==)>(o: seq<T>, x: T, y: T) {
    x in o && y in o && IndexOf(o, x) < IndexOf(o, y)
  }

  lemma {:induction false} IndexOfAppend<T>(s: seq<T>, t: seq<T>, x: T)
    requires x in s
    ensures x in s + t && IndexOf(s + t, x) == IndexOf(s, x)
  {
    if s[0] != x {
      assert (s + t)[1..] == s[1..] + t;
      IndexOfAppend(s[1..], t, x);
    }
  }

  /** Past a prefix free of x, the first x is found in what follows. */
  lemma {:induction false} IndexOfPast<T>(s: seq<T>, t: seq<T>, x: T)
    requires x !in s && x in t
    ensures x in s + t && IndexOf(s + t, x) == |s| + IndexOf(t, x)
  {
    if |s| > 0 {
      assert (s + t)[1..] == s[1..] + t;
      IndexOfPast(s[1..], t, x);
    } else {
      assert s + t == t;
    }
  }

  lemma BeforeAppend<T>(o: seq<T>, t: seq<T>, x: T, y: T)
    requires Before(o, x, y)
    ensures Before(o + t, x, y)
  {
    IndexOfAppend(o, t, x);
    IndexOfAppend(o, t, y);
  }

  /** An element that is new at the end of o comes after everything in o. */
  lemma {:induction false} BeforeLast<T>(o: seq<T>, x: T, y: T)
    requires x in o && y !in o
    ensures Before(o + [y], x, y)
  {
    IndexOfAppend(o, [y], x);
  }

  lemma DistinctAppend<T>(s: seq<T>, x: T)
    requires Distinct(s) && x !in s
    ensures Distinct(s + [x])
  {
  }

  /** A proper subset is strictly smaller. */
  lemma SubsetSmaller<T>(a: set<T>, b: set<T>, x: T)
    requires a <= b && x in b && x !in a
    ensures |a| < |b|
  {
    assert b == a + (b - a);
    assert x in b - a;
  }

  function Elems<T(!new)>(s: seq<T>): (e: set<T>)
    ensures forall x :: x in e <==> x in s
  {
    set x | x in s
  }

  /** A duplicate-free sequence is as long as its set of elements. */
  lemma {:induction false} DistinctCard<T(!new)>(s: seq<T>)
    requires Distinct(s)
    ensures |Elems(s)| == |s|
  {
    if s != [] {
      DistinctCard(s[1..]);
      assert Elems(s) == {s[0]} + Elems(s[1..]);
    }
  }

  lemma SubsetCard<T>(a: set<T>, b: set<T>)
    requires a <= b
    ensures |a| <= |b|
  {
    assert b == a + (b - a);
  }

  /** A sequence without members is empty. */
  lemma NoMemberEmpty<T>(s: seq<T>)
    requires forall x :: x !in s
    ensures s == []
  {
    forall x ensures multiset(s)[x] == 0 {
      assert x !in s;
    }
    assert multiset(s) == multiset{};
  }

  /** Two pushes, then the rest: the pair in front of the rest. */
  lemma PushTwo<T>(a: seq<T>, x: T, y: T, rest: seq<T>)
    ensures a + [x] + [y] + rest == a + ([x, y] + rest)
  {
  }

  /** In a duplicate-free sequence every other element comes before the last. */
  lemma BeforeLastElement<T>(o: seq<T>, a: T)
    requires Distinct(o) && a in o && a != o[|o| - 1]
    ensures IndexOf(o, a) < IndexOf(o, o[|o| - 1])
  {
    DistinctIndex(o, |o| - 1);
  }

  /** In a duplicate-free sequence the first occurrence is the only one. */
  lemma DistinctIndex<T>(s: seq<T>, i: nat)
    requires Distinct(s) && i < |s|
    ensures IndexOf(s, s[i]) == i
  {
  }
}

module Text {
  import opened Seqs

  /** s begins with p (JavaScript `startsWith`). */
  predicate StartsWith(s: string, p: string) {
    |p| <= |s| && s[..|p|] == p
  }

  /** p occurs in s at position i. */
  predicate OccursAt(s: string, p: string, i: int) {
    0 <= i && i + |p| <= |s| && s[i..i + |p|] == p
  }

  /** p occurs somewhere in s (JavaScript `includes`). */
  predicate Contains(s: string, p: string) {
    exists i :: 0 <= i <= |s| - |p| && OccursAt(s, p, i)
  }

  /** Every occurrence of the non-empty p replaced by r, scanning left to
      right without overlap: `replace` with a global pattern that matches
      the literal p. */
  function ReplaceAll(s: string, p: string, r: string): string
    requires |p| > 0
    decreases |s|
  {
    if |s| == 0 then s
    else if StartsWith(s, p) then r + ReplaceAll(s[|p|..], p, r)
    else [s[0]] + ReplaceAll(s[1..], p, r)
  }

  lemma OccursChars(s: string, p: string, i: int)
    ensures OccursAt(s, p, i) ==> forall k :: 0 <= k < |p| ==> s[i + k] == p[k]
  {
    if OccursAt(s, p, i) {
      forall k | 0 <= k < |p| ensures s[i + k] == p[k] {
        assert s[i..i + |p|][k] == s[i + k];
      }
    }
  }

  /** An occurrence in the tail of a + u is an occurrence in a + u. */
  lemma OccursAfter(a: string, u: string, p: string, j: int)
    ensures OccursAt(u, p, j) ==> OccursAt(a + u, p, j + |a|)
  {
    if OccursAt(u, p, j) {
      assert (a + u)[j + |a|..j + |a| + |p|] == u[j..j + |p|];
    }
  }

  /** An occurrence in a + u that starts past a is an occurrence in u. */
  lemma OccursPast(a: string, u: string, p: string, i: int)
    ensures OccursAt(a + u, p, i) && i >= |a| ==> OccursAt(u, p, i - |a|)
  {
    if OccursAt(a + u, p, i) && i >= |a| {
      assert (a + u)[i..i + |p|] == u[i - |a|..i - |a| + |p|];
    }
  }

  lemma ContainsAfter(a: string, u: string, p: string)
    ensures Contains(u, p) ==> Contains(a + u, p)
  {
    if Contains(u, p) {
      var j :| 0 <= j <= |u| - |p| && OccursAt(u, p, j);
      OccursAfter(a, u, p, j);
    }
  }

  /** Containing a string means containing each of its prefixes. */
  lemma ContainsPrefix(s: string, m: string, q: string)
    requires StartsWith(m, q)
    ensures Contains(s, m) ==> Contains(s, q)
  {
    if Contains(s, m) {
      var i :| 0 <= i <= |s| - |m| && OccursAt(s, m, i);
      assert s[i..i + |q|] == s[i..i + |m|][..|q|];
      assert OccursAt(s, q, i);
    }
  }

  /** A string free of p is left alone. */
  lemma {:induction false} ReplaceAllAbsent(s: string, p: string, r: string)
    requires |p| > 0 && !Contains(s, p)
    ensures ReplaceAll(s, p, r) == s
    decreases |s|
  {
    if |s| > 0 {
      assert !OccursAt(s, p, 0);
      ContainsAfter(s[..1], s[1..], p);
      assert s[..1] + s[1..] == s;
      ReplaceAllAbsent(s[1..], p, r);
    }
  }

  /** The first occurrence of p replaced by r (`replace` with a string
      pattern); an empty p inserts r at the front. */
  function ReplaceFirst(s: string, p: string, r: string): string
    decreases |s|
  {
    if StartsWith(s, p) then r + s[|p|..]
    else if |s| == 0 then s
    else [s[0]] + ReplaceFirst(s[1..], p, r)
  }

  /** p occurs at i and nowhere before. */
  predicate FirstOccurrence(s: string, p: string, i: int) {
    OccursAt(s, p, i) && forall j :: 0 <= j < i ==> !OccursAt(s, p, j)
  }

  /** Without an occurrence, ReplaceFirst leaves s alone. */
  lemma {:induction false} ReplaceFirstAbsent(s: string, p: string, r: string)
    requires !Contains(s, p)
    ensures ReplaceFirst(s, p, r) == s
    decreases |s|
  {
    assert !OccursAt(s, p, 0);
    if |s| > 0 {
      SplitHead(s);
      ContainsAfter(s[..1], s[1..], p);
      ReplaceFirstAbsent(s[1..], p, r);
    }
  }

  /** ReplaceFirst cuts s at the first occurrence of p. */
  lemma {:induction false} ReplaceFirstCuts(s: string, p: string, r: string, i: nat)
    requires FirstOccurrence(s, p, i)
    ensures ReplaceFirst(s, p, r) == s[..i] + r + s[i + |p|..]
    decreases i
  {
    if i > 0 {
      assert !OccursAt(s, p, 0);
      SplitHead(s);
      forall j | 0 <= j < i - 1 ensures !OccursAt(s[1..], p, j) {
        OccursAfter(s[..1], s[1..], p, j);
      }
      OccursPast(s[..1], s[1..], p, i);
      ReplaceFirstCuts(s[1..], p, r, i - 1);
      assert s[..i] == [s[0]] + s[1..][..i - 1];
      assert s[i + |p|..] == s[1..][i - 1 + |p|..];
    }
  }

  /** A contained p has a first occurrence. */
  lemma {:induction false} FirstOccurrenceExists(s: string, p: string)
    requires Contains(s, p)
    ensures exists i :: 0 <= i <= |s| - |p| && FirstOccurrence(s, p, i)
    decreases |s|
  {
    if !OccursAt(s, p, 0) {
      var k :| 0 <= k <= |s| - |p| && OccursAt(s, p, k);
      SplitHead(s);
      OccursPast(s[..1], s[1..], p, k);
      FirstOccurrenceExists(s[1..], p);
      var i :| 0 <= i <= |s| - 1 - |p| && FirstOccurrence(s[1..], p, i);
      OccursAfter(s[..1], s[1..], p, i);
      forall j | 0 <= j < i + 1 ensures !OccursAt(s, p, j) {
        OccursPast(s[..1], s[1..], p, j);
      }
      assert FirstOccurrence(s, p, i + 1);
    } else {
      assert FirstOccurrence(s, p, 0);
    }
  }

  lemma SplitHead(s: string)
    requires |s| > 0
    ensures s[..1] + s[1..] == s && s[..1] == [s[0]]
  {
  }

  /** `split` on a one-character separator: the pieces between the
      separators, always at least one. */
  function Split(s: string, c: char): (parts: seq<string>)
    ensures |parts| > 0 && forall i :: 0 <= i < |parts| ==> c !in parts[i]
    decreases |s|
  {
    if c !in s then [s]
    else
      var i := IndexOf(s, c);
      [s[..i]] + Split(s[i + 1..], c)
  }

  /** `join`: the pieces with sep between neighbours. */
  function JoinWith(parts: seq<string>, sep: string): string {
    if |parts| == 0 then ""
    else if |parts| == 1 then parts[0]
    else parts[0] + sep + JoinWith(parts[1..], sep)
  }

  /** Splitting and joining back with the same separator is the identity. */
  lemma {:induction false} SplitJoinRoundTrip(s: string, c: char)
    ensures JoinWith(Split(s, c), [c]) == s
    decreases |s|
  {
    if c in s {
      var i := IndexOf(s, c);
      SplitJoinRoundTrip(s[i + 1..], c);
      assert s == s[..i] + [c] + s[i + 1..];
    }
  }

  /** Joining pieces free of c with c and splitting again gives the
      pieces back. */
  lemma {:induction false} JoinSplitRoundTrip(parts: seq<string>, c: char)
    requires |parts| > 0 && forall i :: 0 <= i < |parts| ==> c !in parts[i]
    ensures Split(JoinWith(parts, [c]), c) == parts
    decreases |parts|
  {
    if |parts| > 1 {
      JoinSplitRoundTrip(parts[1..], c);
      SplitAtSeparator(parts[0], JoinWith(parts[1..], [c]), c);
      assert parts == [parts[0]] + parts[1..];
    }
  }

  /** Split cuts at the first separator. */
  lemma SplitAtSeparator(a: string, rest: string, c: char)
    requires c !in a
    ensures Split(a + [c] + rest, c) == [a] + Split(rest, c)
  {
    var s := a + [c] + rest;
    assert s == a + ([c] + rest);
    IndexOfPast(a, [c] + rest, c);
    assert s[..|a|] == a;
    assert s[|a| + 1..] == rest;
  }

  /** Replacing a one-character pattern works piece by piece. */
  lemma {:induction false} ReplaceCharAppend(a: string, b: string, x: char, r: string)
    ensures ReplaceAll(a + b, [x], r) == ReplaceAll(a, [x], r) + ReplaceAll(b, [x], r)
    decreases |a|
  {
    if |a| == 0 {
      assert a + b == b;
    } else {
      assert (a + b)[1..] == a[1..] + b;
      assert (a + b)[..1] == a[..1];
      ReplaceCharAppend(a[1..], b, x, r);
    }
  }

  /** The first piece is the text before the first separator, and the
      other pieces joined back are the text after it. */
  lemma SplitFirst(s: string, c: char)
    ensures c !in s ==> Split(s, c) == [s]
    ensures c in s ==> Split(s, c)[0] == s[..IndexOf(s, c)] &&
                       JoinWith(Split(s, c)[1..], [c]) == s[IndexOf(s, c) + 1..]
  {
    if c in s {
      SplitJoinRoundTrip(s[IndexOf(s, c) + 1..], c);
    }
  }

  /** The non-empty strings of parts, in order (`filter(Boolean)`). */
  function NonEmpty(parts: seq<string>): (r: seq<string>)
    ensures forall k :: 0 <= k < |r| ==> r[k] != ""
  {
    if |parts| == 0 then []
    else (if parts[0] == "" then [] else [parts[0]]) + NonEmpty(parts[1..])
  }

  /** JavaScript white space and line terminators: what `trim` removes
      and `\s` matches. */
  predicate IsSpace(c: char) {
    c == ' ' || c == '\t' || c == '\n' || c == '\r' || c == '\U{000B}' || c == '\U{000C}' ||
    c == '\U{00A0}' || c == '\U{1680}' || ('\U{2000}' <= c <= '\U{200A}') || c == '\U{2028}' || c == '\U{2029}' ||
    c == '\U{202F}' || c == '\U{205F}' || c == '\U{3000}' || c == '\U{FEFF}'
  }

  function TrimStart(s: string): (r: string)
    ensures |r| <= |s| && r == s[|s| - |r|..]
    ensures |r| > 0 ==> !IsSpace(r[0])
    ensures forall q :: 0 <= q < |s| - |r| ==> IsSpace(s[q])
    decreases |s|
  {
    if |s| > 0 && IsSpace(s[0]) then TrimStart(s[1..]) else s
  }

  function TrimEnd(s: string): (r: string)
    ensures |r| <= |s| && r == s[..|r|]
    ensures |r| > 0 ==> !IsSpace(r[|r| - 1])
    ensures forall q :: |r| <= q < |s| ==> IsSpace(s[q])
    decreases |s|
  {
    if |s| > 0 && IsSpace(s[|s| - 1]) then TrimEnd(s[..|s| - 1]) else s
  }

  /** `trim`: leading and trailing white space removed. */
  function Trim(s: string): string {
    TrimEnd(TrimStart(s))
  }

  /** A trimmed string has white space at neither end, so trimming it
      again changes nothing. */
  lemma TrimIdempotent(s: string)
    ensures var t := Trim(s); (|t| > 0 ==> !IsSpace(t[0]) && !IsSpace(t[|t| - 1])) && Trim(t) == t
  {
    var a := TrimStart(s);
    var t := TrimEnd(a);
    if |t| > 0 {
      assert t[0] == a[0];
    }
  }

  /** Trimming keeps only characters of the input. */
  lemma TrimChars(s: string)
    ensures forall c :: c in Trim(s) ==> c in s
  {
    var a := TrimStart(s);
    var t := TrimEnd(a);
    forall c | c in t ensures c in s {
      var k :| 0 <= k < |t| && t[k] == c;
      assert t[k] == a[k] == s[|s| - |a| + k];
    }
  }

  /** Text with no white space at either end is its own trim, also when
      padded with one space on each side. */
  lemma TrimPadded(u: string)
    requires |u| > 0 && !IsSpace(u[0]) && !IsSpace(u[|u| - 1])
    ensures Trim(u) == u && Trim(" " + u + " ") == u
  {
    var s := " " + u + " ";
    var a := TrimStart(s);
    assert s[1] == u[0];
    assert |a| == |s| - 1;
    assert a == u + " ";
    var t := TrimEnd(a);
    assert a[|u| - 1] == u[|u| - 1];
    assert |t| == |u|;
  }

  /** The three parts of s with s[i..e] replaced by text. */
  lemma SpliceParts(s: string, i: nat, text: string, e: nat)
    requires i <= e <= |s|
    ensures var t := s[..i] + text + s[e..];
      |t| == |s| - (e - i) + |text| && t[..i] == s[..i] &&
      t[i..i + |text|] == text && t[i + |text|..] == s[e..]
  {
  }

  /** Texts that agree before n agree before any m up to n. */
  lemma PrefixAgree(s: string, t: string, n: nat, m: nat)
    requires m <= n <= |s| && n <= |t| && s[..n] == t[..n]
    ensures s[..m] == t[..m]
  {
    assert s[..m] == s[..n][..m];
    assert t[..m] == t[..n][..m];
  }

  /** Inserting ins at p keeps every occurrence that does not straddle p:
      one ending by p stays where it was, one starting at p or later
      moves by |ins|. */
  lemma InsertKeeps(s: string, p: nat, ins: string, x: string, j: int)
    requires p <= |s|
    ensures OccursAt(s, x, j) && j + |x| <= p ==> OccursAt(s[..p] + ins + s[p..], x, j)
    ensures OccursAt(s, x, j) && j >= p ==> OccursAt(s[..p] + ins + s[p..], x, j + |ins|)
  {
    var t := s[..p] + ins + s[p..];
    if OccursAt(s, x, j) && j + |x| <= p {
      assert t[j..j + |x|] == s[..p][j..j + |x|];
    }
    if OccursAt(s, x, j) && j >= p {
      assert t[j + |ins|..j + |ins| + |x|] == s[p..][j - p..j - p + |x|];
    }
  }

  /** Replacing the first a by a + ins inserts ins right after that a. */
  lemma InsertAfterFirst(s: string, a: string, ins: string, i: nat)
    requires FirstOccurrence(s, a, i)
    ensures ReplaceFirst(s, a, a + ins) == s[..i + |a|] + ins + s[i + |a|..]
  {
    ReplaceFirstCuts(s, a, a + ins, i);
    assert s[..i] + a == s[..i + |a|];
  }

  /** The inserted text is contained in the result. */
  lemma ContainsInserted(s: string, p: nat, ins: string, x: string)
    requires p <= |s| && Contains(ins, x)
    ensures Contains(s[..p] + ins + s[p..], x)
  {
    var k :| 0 <= k <= |ins| - |x| && OccursAt(ins, x, k);
    var t := s[..p] + ins + s[p..];
    assert t[k + p..k + p + |x|] == ins[k..k + |x|];
    assert OccursAt(t, x, k + p);
  }

  /** An occurrence of x that does not straddle the end of the first a
      survives replacing that a by a + ins. */
  lemma KeptByInsert(s: string, a: string, ins: string, i: nat, x: string, j: int)
    requires FirstOccurrence(s, a, i) && OccursAt(s, x, j)
    requires j + |x| <= i + |a| || j >= i + |a|
    ensures Contains(ReplaceFirst(s, a, a + ins), x)
  {
    InsertAfterFirst(s, a, ins, i);
    InsertKeeps(s, i + |a|, ins, x, j);
    if j >= i + |a| {
      assert OccursAt(ReplaceFirst(s, a, a + ins), x, j + |ins|);
    } else {
      assert OccursAt(ReplaceFirst(s, a, a + ins), x, j);
    }
  }

  /** Replacing the first a by a + ins keeps a, and adds whatever ins holds. */
  lemma InsertAfterKeeps(s: string, a: string, ins: string, x: string)
    requires Contains(s, a)
    ensures Contains(ReplaceFirst(s, a, a + ins), a)
    ensures Contains(ins, x) ==> Contains(ReplaceFirst(s, a, a + ins), x)
  {
    FirstOccurrenceExists(s, a);
    var i :| 0 <= i <= |s| - |a| && FirstOccurrence(s, a, i);
    KeptByInsert(s, a, ins, i, a, i);
    InsertAfterFirst(s, a, ins, i);
    if Contains(ins, x) {
      ContainsInserted(s, i + |a|, ins, x);
    }
  }

  /** Each piece is contained in the joined text. */
  lemma {:induction false} JoinContains(parts: seq<string>, sep: string, k: nat)
    requires k < |parts|
    ensures Contains(JoinWith(parts, sep), parts[k])
  {
    var j := JoinWith(parts, sep);
    if k == 0 {
      assert OccursAt(j, parts[0], 0);
    } else {
      JoinContains(parts[1..], sep, k - 1);
      ContainsAfter(parts[0] + sep, JoinWith(parts[1..], sep), parts[k]);
    }
  }

  /** Replacing s[i..e] by r keeps every occurrence outside that stretch. */
  lemma SpliceKeeps(s: string, i: nat, e: nat, r: string, x: string, j: int)
    requires i <= e <= |s| && OccursAt(s, x, j)
    requires j + |x| <= i || j >= e
    ensures Contains(s[..i] + r + s[e..], x)
  {
    var t := s[..i] + r + s[e..];
    var d := if j + |x| <= i then 0 else i + |r| - e;
    assert |t| == |s| + i + |r| - e;
    forall k | 0 <= k < |x| ensures t[j + d + k] == x[k] {
      CharAt(s, x, j, k);
      if j + |x| <= i {
        assert t[j + k] == s[..i][j + k];
      } else {
        assert t[j + d + k] == s[e..][j - e + k];
      }
    }
    assert t[j + d..j + d + |x|] == x;
    assert OccursAt(t, x, j + d);
  }

  /** One character of an occurrence. */
  lemma CharAt(s: string, p: string, i: int, k: int)
    ensures OccursAt(s, p, i) && 0 <= k < |p| ==> s[i + k] == p[k]
  {
    if OccursAt(s, p, i) && 0 <= k < |p| {
      assert s[i + k] == s[i..i + |p|][k];
    }
  }
}
