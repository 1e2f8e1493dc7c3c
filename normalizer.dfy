/**
 * The clean-up applied to a fetched transcript: HTML entities decoded, then
 * every line that is empty or whitespace only dropped, and the remaining
 * lines joined with '\n'.
 */
module Normalizer {
  import opened PyText

  /** The lines that are not blank, in their original order. */
  function NonBlank(lines: seq<string>): seq<string>
  {
    if lines == [] then []
    else (if IsBlank(lines[0]) then [] else [lines[0]]) + NonBlank(lines[1..])
  }

  /** `'\n'.join(line for line in text.splitlines() if line.strip())`. */
  function DropBlankLines(text: string): string
  {
    JoinLines(NonBlank(SplitLines(text)))
  }

  /** The transcript text handed back: `unescape` stands for `html.unescape`. */
  function Normalize(unescape: string -> string, raw: string): string
  {
    DropBlankLines(unescape(raw))
  }

  /** The filter keeps a line exactly when it is not blank, and keeps lines in order: it maps `a + b` to the two results joined. */
  lemma {:induction false} NonBlankSpec(a: seq<string>, b: seq<string>)
    ensures NonBlank(a + b) == NonBlank(a) + NonBlank(b)
    ensures forall l :: l in NonBlank(a) <==> l in a && !IsBlank(l)
  {
    if a == [] {
      assert a + b == b;
    } else {
      assert (a + b)[1..] == a[1..] + b;
      NonBlankSpec(a[1..], b);
      assert a == [a[0]] + a[1..];
    }
  }

  lemma {:induction false} NonBlankLines(lines: seq<string>)
    requires forall i :: 0 <= i < |lines| ==> '\n' !in lines[i]
    ensures forall i :: 0 <= i < |NonBlank(lines)| ==> !IsBlank(NonBlank(lines)[i]) && '\n' !in NonBlank(lines)[i]
  {
    if lines != [] {
      NonBlankLines(lines[1..]);
    }
  }

  lemma {:induction false} NonBlankTwice(lines: seq<string>)
    ensures NonBlank(NonBlank(lines)) == NonBlank(lines)
  {
    if lines != [] {
      NonBlankTwice(lines[1..]);
      var rest := NonBlank(lines[1..]);
      if IsBlank(lines[0]) {
        assert NonBlank(lines) == rest;
      } else {
        var once := [lines[0]] + rest;
        assert NonBlank(lines) == once;
        assert once[0] == lines[0] && once[1..] == rest;
      }
    }
  }

  /** Splitting the output again gives exactly the non-blank input lines, in order. */
  lemma OutputLines(text: string)
    ensures SplitLines(DropBlankLines(text)) == NonBlank(SplitLines(text))
  {
    var kept := NonBlank(SplitLines(text));
    NonBlankLines(SplitLines(text));
    if kept != [] {
      assert !IsBlank(kept[|kept| - 1]);
    }
    SplitJoin(kept);
  }

  /** No line of the output is blank. */
  lemma NoBlankOutputLine(text: string)
    ensures forall l :: l in SplitLines(DropBlankLines(text)) ==> !IsBlank(l)
  {
    OutputLines(text);
    NonBlankLines(SplitLines(text));
  }

  /** Dropping blank lines a second time changes nothing (this holds of the line filter, not of `html.unescape`). */
  lemma DropBlankLinesIdempotent(text: string)
    ensures DropBlankLines(DropBlankLines(text)) == DropBlankLines(text)
  {
    OutputLines(text);
    NonBlankTwice(SplitLines(text));
  }
}
