/** Plain string helpers used by the formatter: Python's `str.join` and
    `str.split` on a one-character separator, splitting at the first
    occurrence of a character, and counting occurrences of a string. */
module Text {

  datatype Option<+T> = None | Some(value: T)

  /** `sep.join(parts)` in Python, for a one-character separator. */
  function Join(parts: seq<string>, sep: char): (r: string)
    ensures parts == [] ==> r == []
    ensures |parts| == 1 ==> r == parts[0]
  {
    if |parts| == 0 then []
    else if |parts| == 1 then parts[0]
    else parts[0] + [sep] + Join(parts[1..], sep)
  }

  /** `s.split(sep)` in Python: the pieces between separators, always at least one. */
  function Split(s: string, sep: char): (r: seq<string>)
    ensures |r| >= 1
    ensures sep !in s ==> r == [s]
  {
    if s == [] then [[]]
    else if s[0] == sep then [[]] + Split(s[1..], sep)
    else
      var rest := Split(s[1..], sep);
      assert sep !in s ==> [s[0]] + s[1..] == s;
      [[s[0]] + rest[0]] + rest[1..]
  }

  /** The text before and after the first occurrence of `c` in `s`, if any. */
  function SplitFirst(s: string, c: char): (r: Option<(string, string)>)
    ensures r.None? <==> c !in s
    ensures r.Some? ==> c !in r.value.0 && s == r.value.0 + [c] + r.value.1
  {
    if s == [] then None
    else if s[0] == c then Some(([], s[1..]))
    else match SplitFirst(s[1..], c)
      case None => None
      case Some((before, after)) => Some(([s[0]] + before, after))
  }

  /** `s[a:b]` in Python for indices that are not negative: clamped to the
      string, and empty when `a` is past `b`. */
  function Slice(s: string, a: nat, b: nat): (r: string)
    ensures a <= b <= |s| ==> r == s[a..b]
    ensures b <= a ==> r == []
  {
    var hi := if b <= |s| then b else |s|;
    if a <= hi then s[a..hi] else []
  }

  /** `s[a:]` in Python for an index that is not negative. */
  function Suffix(s: string, a: nat): (r: string)
    ensures a <= |s| ==> r == s[a..]
    ensures |s| <= a ==> r == []
  {
    if a <= |s| then s[a..] else []
  }

  /** Concatenation regrouped to the right, spelled out once so that proofs
      about strings built piece by piece need not rediscover it. */
  lemma Regroup(c: string, a: string, b: string, d: string, e: string, h: string)
    ensures c + a + b + d + e + h == c + (a + (b + (d + (e + h))))
  {
  }

  lemma RegroupTail(a: string, b: string, c: string, d: string, e: string, s: string)
    ensures (a + (b + (c + (d + e)))) + s == a + (b + (c + (d + (e + s))))
  {
  }

  /** Number of non-overlapping occurrences of `p` in `s`, counted left to right;
      for a one-character `p` this counts the positions holding it. */
  function Occurrences(s: string, p: string): nat
    requires |p| > 0
    decreases |s|
  {
    if |s| < |p| then 0
    else if s[..|p|] == p then 1 + Occurrences(s[|p|..], p)
    else Occurrences(s[1..], p)
  }

  /** Splitting at the first `c` finds exactly the `c` placed after a `c`-free prefix. */
  lemma {:induction false} SplitFirstAt(u: string, c: char, w: string)
    requires c !in u
    ensures SplitFirst(u + [c] + w, c) == Some((u, w))
  {
    var s := u + [c] + w;
    if u == [] {
      assert s[1..] == w;
    } else {
      assert s[0] == u[0];
      assert s[1..] == u[1..] + [c] + w;
      SplitFirstAt(u[1..], c, w);
      assert [u[0]] + u[1..] == u;
    }
  }

  lemma {:induction false} OccurrencesAppend(a: string, b: string, c: char)
    ensures Occurrences(a + b, [c]) == Occurrences(a, [c]) + Occurrences(b, [c])
  {
    if a == [] {
      assert a + b == b;
    } else {
      var t := a + b;
      assert t[..1] == a[..1] == [a[0]];
      assert t[1..] == a[1..] + b;
      OccurrencesAppend(a[1..], b, c);
    }
  }

  lemma {:induction false} OccurrencesAbsent(s: string, c: char)
    requires c !in s
    ensures Occurrences(s, [c]) == 0
  {
    if s != [] {
      assert s[..1] == [s[0]];
      OccurrencesAbsent(s[1..], c);
    }
  }

  /** A separator-free prefix followed by a separator becomes the first piece. */
  lemma {:induction false} SplitPrefix(u: string, sep: char, w: string)
    requires sep !in u
    ensures Split(u + [sep] + w, sep) == [u] + Split(w, sep)
  {
    var s := u + [sep] + w;
    if u == [] {
      assert s[1..] == w;
    } else {
      assert s[0] == u[0];
      assert s[1..] == u[1..] + [sep] + w;
      SplitPrefix(u[1..], sep, w);
      var rest := Split(s[1..], sep);
      assert rest == [u[1..]] + Split(w, sep);
      assert Split(s, sep) == [[u[0]] + rest[0]] + rest[1..];
      assert [u[0]] + u[1..] == u;
    }
  }

  /** Splitting a join gives back the parts, when no part holds the separator. */
  lemma {:induction false} SplitJoin(parts: seq<string>, sep: char)
    requires |parts| >= 1
    requires forall i :: 0 <= i < |parts| ==> sep !in parts[i]
    ensures Split(Join(parts, sep), sep) == parts
  {
    if |parts| > 1 {
      SplitPrefix(parts[0], sep, Join(parts[1..], sep));
      SplitJoin(parts[1..], sep);
      assert parts == [parts[0]] + parts[1..];
    }
  }

  /** A join of k separator-free parts holds the separator exactly k - 1 times. */
  lemma {:induction false} JoinSeparators(parts: seq<string>, sep: char)
    requires |parts| >= 1
    requires forall i :: 0 <= i < |parts| ==> sep !in parts[i]
    ensures Occurrences(Join(parts, sep), [sep]) == |parts| - 1
  {
    if |parts| == 1 {
      OccurrencesAbsent(parts[0], sep);
    } else {
      JoinSeparators(parts[1..], sep);
      OccurrencesAbsent(parts[0], sep);
      OccurrencesAppend(parts[0] + [sep], Join(parts[1..], sep), sep);
      OccurrencesAppend(parts[0], [sep], sep);
      assert [sep][..1] == [sep] && [sep][1..] == [];
    }
  }
}
