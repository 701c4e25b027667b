/** Match highlighting: the line is rebuilt with every matched segment
    wrapped in the ANSI codes for bright red and for the default colour,
    and the unmatched text copied as it is. */
module Colour {
  import opened Text
  import opened Spans

  const Esc: char := '\U{1B}'
  /** `'\033[91m'`, bright red. */
  const ColorStart: string := [Esc] + "[91m"
  /** `'\033[0m'`, back to the default colour. */
  const ColorReset: string := [Esc] + "[0m"

  /** What the highlighting loop appends from offset `from` on, given the
      matches still to come: for each one the unmatched text since the
      previous match end, then the matched segment between a start and a
      reset code; after the last, the rest of the line. Slicing is Python's,
      so this is defined for any spans; the lemmas below assume ordered ones. */
  function Highlighted(line: string, ms: seq<Match>, from: nat): string
    decreases |ms|
  {
    if ms == [] then Suffix(line, from)
    else
      Slice(line, from, ms[0].start) + (ColorStart + (Slice(line, ms[0].start, ms[0].end)
        + (ColorReset + Highlighted(line, ms[1..], ms[0].end))))
  }

  /** The line as `_color_format` colours it. */
  function Colorized(line: string, ms: seq<Match>): string
  {
    Highlighted(line, ms, 0)
  }

  /** The loop of `_color_format`. */
  method ColorizeLine(line: string, ms: seq<Match>) returns (colored: string)
    ensures colored == Colorized(line, ms)
  {
    colored := "";
    var lastMatchEnd := 0;
    for i := 0 to |ms|
      invariant colored + Highlighted(line, ms[i..], lastMatchEnd) == Colorized(line, ms)
    {
      var m := ms[i];
      assert ms[i..][1..] == ms[i + 1..];
      Regroup(colored, Slice(line, lastMatchEnd, m.start), ColorStart, Slice(line, m.start, m.end), ColorReset,
              Highlighted(line, ms[i + 1..], m.end));
      colored := colored + Slice(line, lastMatchEnd, m.start);
      colored := colored + ColorStart;
      colored := colored + Slice(line, m.start, m.end);
      colored := colored + ColorReset;
      lastMatchEnd := m.end;
    }
    colored := colored + Suffix(line, lastMatchEnd);
  }

  /** `s` begins with `ColorStart`. */
  predicate StartsWithStart(s: string)
  {
    |s| >= 5 && s[0] == Esc && s[1] == '[' && s[2] == '9' && s[3] == '1' && s[4] == 'm'
  }

  /** `s` begins with `ColorReset`. */
  predicate StartsWithReset(s: string)
  {
    |s| >= 4 && s[0] == Esc && s[1] == '[' && s[2] == '0' && s[3] == 'm'
  }

  /** Removes every colour code, reading left to right. */
  function StripColor(s: string): string
    decreases |s|
  {
    if s == [] then []
    else if StartsWithStart(s) then StripColor(s[5..])
    else if StartsWithReset(s) then StripColor(s[4..])
    else [s[0]] + StripColor(s[1..])
  }

  lemma StripStart(s: string)
    ensures StripColor(ColorStart + s) == StripColor(s)
  {
    var t := ColorStart + s;
    assert StartsWithStart(t);
    assert t[5..] == s;
  }

  lemma StripReset(s: string)
    ensures StripColor(ColorReset + s) == StripColor(s)
  {
    var t := ColorReset + s;
    assert !StartsWithStart(t) && StartsWithReset(t);
    assert t[4..] == s;
  }

  /** Text without an escape character passes through unchanged. */
  lemma {:induction false} StripPlain(u: string, s: string)
    requires Esc !in u
    ensures StripColor(u + s) == u + StripColor(s)
  {
    if u != [] {
      var t := u + s;
      assert t[0] == u[0] != Esc;
      assert t[1..] == u[1..] + s;
      StripPlain(u[1..], s);
      assert [u[0]] + u[1..] == u;
    } else {
      assert u + s == s;
    }
  }

  lemma SliceNoEsc(line: string, a: nat, b: nat)
    requires Esc !in line && a <= b <= |line|
    ensures Esc !in line[a..b]
  {
  }

  /** One highlighted match, followed by anything, strips to its line text. */
  lemma StripMatch(gap: string, text: string, s: string)
    requires Esc !in gap && Esc !in text
    ensures StripColor(gap + (ColorStart + (text + (ColorReset + s)))) == gap + text + StripColor(s)
  {
    calc {
      StripColor(gap + (ColorStart + (text + (ColorReset + s))));
      { StripPlain(gap, ColorStart + (text + (ColorReset + s))); }
      gap + StripColor(ColorStart + (text + (ColorReset + s)));
      { StripStart(text + (ColorReset + s)); }
      gap + StripColor(text + (ColorReset + s));
      { StripPlain(text, ColorReset + s); }
      gap + (text + StripColor(ColorReset + s));
      { StripReset(s); }
      gap + (text + StripColor(s));
    }
  }

  /** The first step of the loop, for a match inside the line at or after `from`. */
  lemma HighlightedFront(line: string, ms: seq<Match>, from: nat)
    requires ms != [] && from <= ms[0].start <= ms[0].end <= |line|
    ensures Highlighted(line, ms, from)
         == line[from..ms[0].start] + (ColorStart + (line[ms[0].start..ms[0].end]
              + (ColorReset + Highlighted(line, ms[1..], ms[0].end))))
  {
  }

  lemma SliceJoin(line: string, a: nat, b: nat, c: nat)
    requires a <= b <= c <= |line|
    ensures line[a..b] + line[b..c] + line[c..] == line[a..]
  {
  }

  /** One step of the loop strips to the line from `from`, once what follows does. */
  lemma StripStep(line: string, from: nat, a: nat, b: nat, later: string, s: string)
    requires from <= a <= b <= |line| && Esc !in line
    requires StripColor(later + s) == line[b..] + StripColor(s)
    ensures StripColor(line[from..a] + (ColorStart + (line[a..b] + (ColorReset + later))) + s)
         == line[from..] + StripColor(s)
  {
    var gap, text := line[from..a], line[a..b];
    assert StripColor(gap + (ColorStart + (text + (ColorReset + later))) + s)
        == gap + text + StripColor(later + s) by {
      RegroupTail(gap, ColorStart, text, ColorReset, later, s);
      SliceNoEsc(line, from, a);
      SliceNoEsc(line, a, b);
      StripMatch(gap, text, later + s);
    }
    assert gap + text + (line[b..] + StripColor(s)) == line[from..] + StripColor(s) by {
      SliceJoin(line, from, a, b);
    }
  }

  /** Stripping what the loop appends from `from` gives back the line from `from`. */
  lemma {:induction false} StripHighlighted(line: string, ms: seq<Match>, from: nat, s: string)
    requires Ordered(line, ms, from) && Esc !in line
    ensures from <= |line|
    ensures StripColor(Highlighted(line, ms, from) + s) == line[from..] + StripColor(s)
    decreases |ms|
  {
    if ms == [] {
      SliceNoEsc(line, from, |line|);
      StripPlain(line[from..], s);
    } else {
      var m := ms[0];
      HighlightedFront(line, ms, from);
      StripHighlighted(line, ms[1..], m.end, s);
      StripStep(line, from, m.start, m.end, Highlighted(line, ms[1..], m.end), s);
    }
  }

  /** Removing the colour codes from the highlighted line, and from whatever
      follows it, gives back the line and what follows with its codes removed. */
  lemma StripColorized(line: string, ms: seq<Match>, s: string)
    requires WellFormed(line, ms) && Esc !in line
    ensures StripColor(Colorized(line, ms) + s) == line + StripColor(s)
  {
    WellFormedOrdered(line, ms, 0);
    StripHighlighted(line, ms, 0, s);
    assert line[0..] == line;
  }

  lemma OccurrencesOwn(p: string, s: string)
    requires |p| > 0
    ensures Occurrences(p + s, p) == 1 + Occurrences(s, p)
  {
    var t := p + s;
    assert t[..|p|] == p;
    assert t[|p|..] == s;
  }

  /** An occurrence of a code cannot begin in text without an escape character. */
  lemma {:induction false} OccurrencesPlain(u: string, s: string, p: string)
    requires |p| > 0 && p[0] == Esc && Esc !in u
    ensures Occurrences(u + s, p) == Occurrences(s, p)
  {
    if u == [] {
      assert u + s == s;
    } else {
      var t := u + s;
      assert t[0] == u[0];
      assert |t| >= |p| ==> t[..|p|][0] != p[0];
      assert t[1..] == u[1..] + s;
      OccurrencesPlain(u[1..], s, p);
    }
  }

  /** A reset code does not hold a start code, nor a start code a reset code. */
  lemma OccurrencesOther(p: string, q: string, s: string)
    requires (p == ColorStart && q == ColorReset) || (p == ColorReset && q == ColorStart)
    ensures Occurrences(q + s, p) == Occurrences(s, p)
  {
    var t := q + s;
    assert t[2] == q[2] != p[2];
    assert |t| >= |p| ==> t[..|p|] != p;
    assert t[1..] == q[1..] + s;
    assert Esc !in q[1..];
    OccurrencesPlain(q[1..], s, p);
  }

  /** One highlighted match holds exactly one start code and one reset code. */
  lemma OccurrencesMatch(gap: string, text: string, s: string, p: string)
    requires Esc !in gap && Esc !in text
    requires p == ColorStart || p == ColorReset
    ensures Occurrences(gap + (ColorStart + (text + (ColorReset + s))), p) == 1 + Occurrences(s, p)
  {
    OccurrencesPlain(gap, ColorStart + (text + (ColorReset + s)), p);
    OccurrencesPlain(text, ColorReset + s, p);
    if p == ColorStart {
      OccurrencesOwn(ColorStart, text + (ColorReset + s));
      OccurrencesOther(ColorStart, ColorReset, s);
    } else {
      OccurrencesOther(ColorReset, ColorStart, text + (ColorReset + s));
      OccurrencesOwn(ColorReset, s);
    }
  }

  /** What the loop appends holds one start code and one reset code per match. */
  lemma {:induction false} OccurrencesHighlighted(line: string, ms: seq<Match>, from: nat, p: string)
    requires Ordered(line, ms, from) && Esc !in line
    requires p == ColorStart || p == ColorReset
    ensures Occurrences(Highlighted(line, ms, from), p) == |ms|
    decreases |ms|
  {
    if ms == [] {
      SliceNoEsc(line, from, |line|);
      OccurrencesPlain(line[from..], [], p);
      assert line[from..] + [] == line[from..];
    } else {
      var m := ms[0];
      SliceNoEsc(line, from, m.start);
      SliceNoEsc(line, m.start, m.end);
      OccurrencesHighlighted(line, ms[1..], m.end, p);
      OccurrencesMatch(line[from..m.start], line[m.start..m.end], Highlighted(line, ms[1..], m.end), p);
    }
  }

  /** The highlighted line holds `ColorStart` once per match and `ColorReset` once per match. */
  lemma CodesPerMatch(line: string, ms: seq<Match>)
    requires WellFormed(line, ms) && Esc !in line
    ensures Occurrences(Colorized(line, ms), ColorStart) == |ms|
    ensures Occurrences(Colorized(line, ms), ColorReset) == |ms|
  {
    WellFormedOrdered(line, ms, 0);
    OccurrencesHighlighted(line, ms, 0, ColorStart);
    OccurrencesHighlighted(line, ms, 0, ColorReset);
  }

  lemma ShiftSlice(u: string, v: string, x: nat, y: nat)
    requires x <= y <= |v|
    ensures (u + v)[|u| + x..|u| + y] == v[x..y]
  {
  }

  lemma HeadSlice(a: string, b: string)
    ensures (a + b)[0..|a|] == a
  {
  }

  lemma CodeLengths()
    ensures |ColorStart| == 5 && |ColorReset| == 4
  {
  }

  /** What the loop appends from `from` up to the start code of match i. */
  function BeforeMatch(line: string, ms: seq<Match>, from: nat, i: nat): string
    requires i < |ms|
    decreases i
  {
    if i == 0 then Slice(line, from, ms[0].start)
    else
      Slice(line, from, ms[0].start) + (ColorStart + (Slice(line, ms[0].start, ms[0].end)
        + (ColorReset + BeforeMatch(line, ms[1..], ms[0].end, i - 1))))
  }

  /** What the loop appends after the reset code of match i. */
  function AfterMatch(line: string, ms: seq<Match>, i: nat): string
    requires i < |ms|
  {
    Highlighted(line, ms[i + 1..], ms[i].end)
  }

  lemma AfterShift(line: string, ms: seq<Match>, i: nat)
    requires 0 < i < |ms|
    ensures ms[1..][i - 1] == ms[i]
    ensures AfterMatch(line, ms[1..], i - 1) == AfterMatch(line, ms, i)
  {
    assert ms[1..][i..] == ms[i + 1..];
  }

  lemma HighlightedStep(line: string, ms: seq<Match>, from: nat)
    requires ms != []
    ensures Highlighted(line, ms, from)
         == Slice(line, from, ms[0].start) + (ColorStart + (Slice(line, ms[0].start, ms[0].end)
              + (ColorReset + Highlighted(line, ms[1..], ms[0].end))))
  {
  }

  lemma BeforeStep(line: string, ms: seq<Match>, from: nat, i: nat)
    requires 0 < i < |ms|
    ensures BeforeMatch(line, ms, from, i)
         == Slice(line, from, ms[0].start) + (ColorStart + (Slice(line, ms[0].start, ms[0].end)
              + (ColorReset + BeforeMatch(line, ms[1..], ms[0].end, i - 1))))
  {
  }

  lemma AroundFirst(line: string, ms: seq<Match>, from: nat)
    requires ms != []
    ensures Highlighted(line, ms, from)
         == BeforeMatch(line, ms, from, 0)
            + (ColorStart + (Slice(line, ms[0].start, ms[0].end) + (ColorReset + AfterMatch(line, ms, 0))))
  {
    HighlightedStep(line, ms, from);
    assert AfterMatch(line, ms, 0) == Highlighted(line, ms[1..], ms[0].end);
  }

  /** One step of `AroundMatch`: the split of the text after the first match
      extends to a split of the whole. */
  lemma AroundStep(line: string, ms: seq<Match>, from: nat, i: nat, before: string, around: string)
    requires 0 < i < |ms|
    requires before == BeforeMatch(line, ms[1..], ms[0].end, i - 1)
    requires Highlighted(line, ms[1..], ms[0].end) == before + around
    ensures Highlighted(line, ms, from) == BeforeMatch(line, ms, from, i) + around
  {
    HighlightedStep(line, ms, from);
    BeforeStep(line, ms, from, i);
    RegroupTail(Slice(line, from, ms[0].start), ColorStart, Slice(line, ms[0].start, ms[0].end), ColorReset,
                before, around);
  }

  /** Whatever the spans, the highlighted text splits around match i. */
  lemma {:induction false} AroundMatch(line: string, ms: seq<Match>, from: nat, i: nat)
    requires i < |ms|
    ensures Highlighted(line, ms, from)
         == BeforeMatch(line, ms, from, i)
            + (ColorStart + (Slice(line, ms[i].start, ms[i].end) + (ColorReset + AfterMatch(line, ms, i))))
    decreases i
  {
    if i == 0 {
      AroundFirst(line, ms, from);
    } else {
      var before := BeforeMatch(line, ms[1..], ms[0].end, i - 1);
      var around := ColorStart + (Slice(line, ms[i].start, ms[i].end) + (ColorReset + AfterMatch(line, ms, i)));
      AroundMatch(line, ms[1..], ms[0].end, i - 1);
      AfterShift(line, ms, i);
      AroundStep(line, ms, from, i, before, around);
    }
  }

  /** For ordered matches, what precedes match i's start code is the line from
      `from` up to the match plus nine characters of codes per earlier match. */
  lemma {:induction false} BeforeLength(line: string, ms: seq<Match>, from: nat, i: nat)
    requires Ordered(line, ms, from) && i < |ms|
    ensures from <= ms[i].start <= ms[i].end <= |line|
    ensures |BeforeMatch(line, ms, from, i)| == ms[i].start - from + 9 * i
    decreases i
  {
    CodeLengths();
    if i > 0 {
      var m := ms[0];
      BeforeLength(line, ms[1..], m.end, i - 1);
      assert ms[1..][i - 1] == ms[i];
    }
  }

  /** Each match's text sits in the highlighted line between one start code and
      one reset code; what precedes the start code is as long as the line up to
      the match plus nine characters (one start and one reset code) for each
      match before it. */
  lemma MatchHighlighted(line: string, ms: seq<Match>, i: nat)
    requires WellFormed(line, ms) && i < |ms|
    ensures |BeforeMatch(line, ms, 0, i)| == ms[i].start + 9 * i
    ensures Colorized(line, ms)
         == BeforeMatch(line, ms, 0, i) + (ColorStart + (ms[i].text + (ColorReset + AfterMatch(line, ms, i))))
  {
    assert ms[i].text == line[ms[i].start..ms[i].end];
    WellFormedOrdered(line, ms, 0);
    BeforeLength(line, ms, 0, i);
    AroundMatch(line, ms, 0, i);
  }

  /** After the last match the rest of the line follows its reset code once,
      and ends the highlighted line; a line without matches is unchanged. */
  lemma RestAfterLast(line: string, ms: seq<Match>)
    requires WellFormed(line, ms)
    ensures ms == [] ==> Colorized(line, ms) == line
    ensures ms != [] ==>
              var last := |ms| - 1;
              Colorized(line, ms)
              == BeforeMatch(line, ms, 0, last) + (ColorStart + (ms[last].text + (ColorReset + line[ms[last].end..])))
  {
    if ms == [] {
      assert line[0..] == line;
    } else {
      var last := |ms| - 1;
      assert ms[last].end <= |line|;
      assert ms[last + 1..] == [];
      assert AfterMatch(line, ms, last) == line[ms[last].end..];
      MatchHighlighted(line, ms, last);
    }
  }

  /** The same, by position: in a string made of a prefix, a start code, a text,
      a reset code and a rest, the codes and the text sit right after the prefix. */
  /** `h` holds, from position `p` on, a start code, `text` and a reset code. */
  predicate CodesAround(h: string, p: nat, text: string)
  {
    && p + 9 + |text| <= |h|
    && h[p..p + 5] == ColorStart
    && h[p + 5..p + 5 + |text|] == text
    && h[p + 5 + |text|..p + 9 + |text|] == ColorReset
  }

  lemma CodesAt(h: string, lead: string, text: string, later: string, p: nat)
    requires h == lead + (ColorStart + (text + (ColorReset + later)))
    requires p == |lead|
    ensures CodesAround(h, p, text)
  {
    CodeLengths();
    var w2 := ColorReset + later;
    var w1 := text + w2;
    var v := ColorStart + w1;
    ShiftSlice(lead, v, 0, 5);
    HeadSlice(ColorStart, w1);
    ShiftSlice(lead, v, 5, 5 + |text|);
    ShiftSlice(ColorStart, w1, 0, |text|);
    HeadSlice(text, w2);
    ShiftSlice(lead, v, 5 + |text|, 9 + |text|);
    ShiftSlice(ColorStart, w1, |text|, |text| + 4);
    ShiftSlice(text, w2, 0, 4);
    HeadSlice(ColorReset, later);
  }

  /** Where match i lands in the highlighted line: its start code begins at
      the match start shifted by the 9 code characters of each earlier match,
      its text follows the 5 characters of the start code, and its reset code
      follows the text. */
  lemma MatchPositions(line: string, ms: seq<Match>, i: nat)
    requires WellFormed(line, ms) && i < |ms|
    ensures CodesAround(Colorized(line, ms), ms[i].start + 9 * i, ms[i].text)
  {
    MatchHighlighted(line, ms, i);
    var h := Colorized(line, ms);
    CodesAt(h, BeforeMatch(line, ms, 0, i), ms[i].text, AfterMatch(line, ms, i), ms[i].start + 9 * i);
    assert CodesAround(h, ms[i].start + 9 * i, ms[i].text);
  }
}
