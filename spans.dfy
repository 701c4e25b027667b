/** Regular-expression matches as the formatter sees them. The regex
    engine itself is outside the model: a match is only its span in the
    line and the text it covers. */
module Spans {

  /** A match object: `match.span()` is `(start, end)`, `match.group(0)` is `text`. */
  datatype Match = Match(start: nat, end: nat, text: string)

  /** What `re.finditer` guarantees of the matches it yields for `line`: each
      span lies inside the line and covers its text, and later matches begin
      at or after the end of earlier ones. Starts need not strictly increase:
      a match may begin where an empty match before it ended, as `^|\w+` on
      `two words` gives (0, 0) and then (0, 3). */
  predicate WellFormed(line: string, ms: seq<Match>)
  {
    && (forall i :: 0 <= i < |ms| ==>
          ms[i].start <= ms[i].end <= |line| && ms[i].text == line[ms[i].start..ms[i].end])
    && (forall i, j :: 0 <= i < j < |ms| ==> ms[i].end <= ms[j].start)
  }

  /** The part of `WellFormed` the highlighting loop relies on, read from the
      front: starting from offset `from`, each match begins at or after the
      end of the one before and ends inside the line. */
  predicate Ordered(line: string, ms: seq<Match>, from: nat)
    decreases |ms|
  {
    if ms == [] then from <= |line|
    else from <= ms[0].start <= ms[0].end <= |line| && Ordered(line, ms[1..], ms[0].end)
  }

  /** Well-formed matches are ordered from any offset up to the first match. */
  lemma {:induction false} WellFormedOrdered(line: string, ms: seq<Match>, from: nat)
    requires WellFormed(line, ms)
    requires if ms == [] then from <= |line| else from <= ms[0].start
    ensures Ordered(line, ms, from)
    decreases |ms|
  {
    if ms != [] {
      var rest := ms[1..];
      assert WellFormed(line, rest) by {
        forall i | 0 <= i < |rest| ensures rest[i] == ms[i + 1] { }
      }
      if rest != [] {
        assert ms[0].end <= ms[1].start;
      }
      WellFormedOrdered(line, rest, ms[0].end);
    }
  }
}
