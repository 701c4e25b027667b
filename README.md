# minigrep result formatting, in Dafny

This project models the formatting core of `minigrep.py`, a small grep. It covers four things:

- The `GrepFormatter` class refuses colour mode and machine mode together, and otherwise keeps the two flags for good.
- It has three ways to render a hit:
  - the base record `file, line N: "text"`;
  - the machine records `file:line:column:match`, one per match and joined by newlines;
  - the colour record, which is the base record of the line with every match wrapped in the ANSI red and reset codes.
- `formatter` picks one of the three.
- `get_re_matches` passes on only the lines that have at least one match.

The regex engine is not modelled. A match is its span and its text (`Spans.Match`). `Spans.WellFormed` states what `re.finditer` guarantees of the matches of one line:

- every span lies inside the line and covers its text;
- each match begins at or after the end of the match before it.

This allows an empty match followed by a match at the same offset. For example, `^|\w+` on `two words` gives the spans (0, 0), (0, 3) and (4, 9).

Modules:

- `Text`: Python's `join` and `split` on one character, slicing with Python's clamping, and counting occurrences of a string.
- `Decimal`: `str(n)` for a natural number, and reading it back.
- `Spans`: matches and their well-formedness.
- `Colour`: the highlighting loop of `_color_format`, the highlighted line it must build, and what is proved about that line.
- `Minigrep`: the three formats, readers that parse a base record and a machine record back into their fields, the `GrepFormatter` class and `get_re_matches`.

The parsers state what a record shows: the file name, the 1-based line number, the 1-based column and the text. The round-trip lemmas prove that each record shows exactly these.

## Model

| member | source | states |
|---|---|---|
| Minigrep.GrepFormatter.Create | minigrep.py:19-31 | Fails with `IncompatibleModes` exactly when both colour and machine are asked for; otherwise gives a new formatter whose flags equal the arguments (the flags are `const`, so no call changes them) |
| Minigrep.GrepFormatter.constructor | minigrep.py:30-31 | Stores both flags as given |
| Minigrep.BaseRoundTrip | minigrep.py:44-47 | For a file name without a comma, the base record parses back to the file name, the line index plus one, and the line exactly, whatever the line holds |
| Minigrep.BaseExample | test_minigrep.py:49-53 | Line index 42 of `cool_name` holding `This line is cool.` renders as `cool_name, line 43: "This line is cool."` |
| Decimal.NatToDecimal | minigrep.py:47 | A rendered number is a non-empty string of digits, with a leading zero only for zero |
| Decimal.DecimalRoundTrip | minigrep.py:47 | Reading a rendered number gives the number back |
| Minigrep.MachineRecords | minigrep.py:54 | One record per match, in match order; record i is the record of match i |
| Minigrep.MachineParse | minigrep.py:54 | The layout `file:line:column:text` with a colon-free file name parses back to exactly those four fields, even when the text holds colons |
| Minigrep.MachineRecordRoundTrip | minigrep.py:54 | For a colon-free file name, the record of a match reads back as the file name, the line index plus one, the match start plus one, and the matched text |
| Minigrep.MachineLines | minigrep.py:50-54 | For k matches (k at least 1), with no newline in the file name or the texts, the machine output splits at newlines into exactly the k records in order, and holds k - 1 newlines |
| Text.SplitJoin | minigrep.py:54 | Splitting a join at its separator gives back the parts when no part holds the separator |
| Text.JoinSeparators | minigrep.py:54 | A join of k separator-free parts holds the separator k - 1 times |
| Minigrep.MachineExample | test_minigrep.py:56-59 | Matches `irs` at offset 5 and `ins` at offset 34 on line index 2 of `do` render as `do:3:6:irs`, a newline, and `do:3:35:ins` |
| Colour.ColorizeLine | minigrep.py:56-71 | The loop over the matches builds exactly the highlighted line `Colorized` |
| Colour.StripHighlighted | minigrep.py:64-71 | From any offset, with ordered spans and no escape character in the line, removing the codes from what the loop appends gives back the rest of the line |
| Colour.StripColorized | minigrep.py:63-71 | For well-formed matches and a line without escape characters, removing both codes from the highlighted line gives back the line exactly |
| Colour.OccurrencesHighlighted | minigrep.py:64-71 | From any offset, with ordered spans and no escape character in the line, what the loop appends holds each code once per remaining match |
| Colour.CodesPerMatch | minigrep.py:58-71 | For well-formed matches and a line without escape characters, the highlighted line holds the start code exactly once per match and the reset code exactly once per match |
| Colour.AroundMatch | minigrep.py:64-70 | For any spans, the highlighted text is what comes before match i, a start code, the segment of match i, a reset code, and what follows |
| Colour.MatchHighlighted | minigrep.py:64-70 | For well-formed matches, the text of match i sits between one start code and one reset code; what comes before is as long as the line up to the match plus 9 characters of codes for each earlier match |
| Colour.CodesAt | minigrep.py:66-69 | In a string made of a prefix, a start code, a text, a reset code and a rest, the start code, the text and the reset code sit right after the prefix |
| Colour.MatchPositions | minigrep.py:64-70 | For well-formed matches, the highlighted line holds the start code of match i at offset start + 9i, the matched text 5 characters later, and the reset code right after the text |
| Colour.RestAfterLast | minigrep.py:71 | The rest of the line after the last match end follows the last reset code once and ends the line; a line without matches is left unchanged |
| Spans.WellFormedOrdered | minigrep.py:61-70 | Well-formed matches can be consumed in order, with `last_match_end` never past the next start and every end inside the line |
| Minigrep.ColorRecordStrips | minigrep.py:56-74 | With no escape character in the file name or the line, removing the codes from the colour record gives the base record of the same line: same prefix, same line number, same text |
| Minigrep.ColorExample | minigrep.py:64-71 | `a duck!` with one match on `duck` becomes `a `, start code, `duck`, reset code, `!` |
| Minigrep.GrepFormatter.ColorFormat | minigrep.py:73-74 | The colour record is the base record of the highlighted line |
| Minigrep.GrepFormatter.Format | minigrep.py:76-83 | Colour mode gives the colour record; otherwise machine mode gives the machine records; otherwise the base record of the line, which ignores the matches |
| Minigrep.GetReMatches | minigrep.py:92-102 | Every result is a line that has matches, with its 0-based index, the line and its matches; results come in strictly increasing index order; every line with a match has a result |

## Left out

- Enabling VT100 colour output on Windows through `ctypes` and the `platform()` test (minigrep.py:26-28, 33-41) is a foreign OS call with a global side effect. It does not affect the strings produced.
- `re.finditer` and regular expressions are not modelled. `GetReMatches` takes the matcher as a function `find` from a line to its matches. The formatting members take a line's matches as a parameter, and `WellFormed` is required where the spans must be in order.
- `GetReMatches` returns the whole result sequence; the Python generator yields results lazily. Laziness is not modelled.
- `get_file_lines` (minigrep.py:86-89) reads a file, and `grep` (minigrep.py:105-114) prints. Both are I/O.
- The argparse command line (minigrep.py:117-131) is not modelled.
- Minigrep.BaseRoundTrip: it holds only for file names without a comma. A comma in the name makes the record ambiguous to read back; the format itself is unchanged.
- Minigrep.MachineParse: it holds only for colon-free file names, for the same reason.
- Minigrep.MachineLines: it holds only when the file name and the matched texts contain no newline. A match can span a newline only if the line holds one, and `splitlines` never leaves one in a line.
- Colour.StripColorized: it holds only for a line without the escape character. A line in which the codes already appear cannot be told apart from the highlighting after the codes are removed.
- Minigrep.GrepFormatter.constructor: it requires that the two modes are not both on. The refusing path of `__init__` is `Create`, which returns the error in place of raising `ValueError`.
