/**
 * Python code blocks (renpy/ast.py `PyCode.__init__` and `PyCode.dedent`).
 *
 * `dedent` finds the leading spaces of each line with the multi-line pattern
 * `(^[ ]*)(?:[^ ])`, folds them to their common margin, and removes that
 * margin from the start of every line.
 */
module Dedent {
  import opened Wrappers

  /** `p` is a prefix of `s` (`s.startswith(p)`). */
  predicate IsPrefix(p: string, s: string)
  {
    |p| <= |s| && s[..|p|] == p
  }

  /** Only space characters. */
  predicate Spaces(s: string)
  {
    forall i :: 0 <= i < |s| ==> s[i] == ' '
  }

  /** `text.split("\n")`. */
  function Lines(text: string): (r: seq<string>)
    ensures |r| >= 1
    ensures forall k :: 0 <= k < |r| ==> '\n' !in r[k]
  {
    if |text| == 0 then [""]
    else if text[0] == '\n' then [""] + Lines(text[1..])
    else
      var rest := Lines(text[1..]);
      [[text[0]] + rest[0]] + rest[1..]
  }

  /** `"\n".join(lines)`. */
  function Join(lines: seq<string>): string
    requires |lines| >= 1
  {
    if |lines| == 1 then lines[0] else lines[0] + "\n" + Join(lines[1..])
  }

  /** Splitting then joining gives the text back. */
  lemma {:induction false} JoinLines(text: string)
    ensures Join(Lines(text)) == text
  {
    if |text| > 0 {
      JoinLines(text[1..]);
      var rest := Lines(text[1..]);
      if text[0] == '\n' {
        assert text == "\n" + text[1..];
      } else if |rest| == 1 {
        assert text == [text[0]] + text[1..];
      } else {
        assert ([[text[0]] + rest[0]] + rest[1..])[1..] == rest[1..];
        assert text == [text[0]] + text[1..];
      }
    }
  }

  /** Joining lines that hold no newline then splitting gives the lines back. */
  lemma {:induction false} LinesJoin(lines: seq<string>)
    requires |lines| >= 1
    requires forall k :: 0 <= k < |lines| ==> '\n' !in lines[k]
    ensures Lines(Join(lines)) == lines
    decreases |lines|, |lines[0]|
  {
    var l0 := lines[0];
    if |l0| == 0 {
      if |lines| > 1 {
        LinesJoin(lines[1..]);
        assert Join(lines) == "\n" + Join(lines[1..]);
        assert ("\n" + Join(lines[1..]))[1..] == Join(lines[1..]);
        assert [""] + lines[1..] == lines;
      }
    } else {
      var shorter := [l0[1..]] + lines[1..];
      assert shorter[1..] == lines[1..];
      assert forall k :: 1 <= k < |shorter| ==> shorter[k] == lines[k];
      assert l0[0] in l0;
      LinesJoin(shorter);
      assert Join(lines) == [l0[0]] + Join(shorter);
      assert ([l0[0]] + Join(shorter))[1..] == Join(shorter);
      assert [l0[0]] + l0[1..] == l0;
      assert [[l0[0]] + shorter[0]] + shorter[1..] == lines;
    }
  }

  /** The run of spaces a line starts with. */
  function LeadingSpaces(line: string): (r: string)
    ensures IsPrefix(r, line) && Spaces(r)
    ensures |r| < |line| ==> line[|r|] != ' '
  {
    if |line| > 0 && line[0] == ' ' then [' '] + LeadingSpaces(line[1..]) else []
  }

  predicate HasNonSpace(line: string)
  {
    exists i :: 0 <= i < |line| && line[i] != ' '
  }

  /**
   * How many lines the pattern matches: every line followed by a newline
   * (a blank one matches with its newline), and the last line only when it
   * holds something other than spaces.
   */
  function MatchedLines(ls: seq<string>): (n: nat)
    requires |ls| >= 1
    ensures n <= |ls|
  {
    if HasNonSpace(ls[|ls| - 1]) then |ls| else |ls| - 1
  }

  /** `_leading_whitespace_re.findall(text)`: the leading spaces of each matched line. */
  function Indents(text: string): (r: seq<string>)
  {
    var ls := Lines(text);
    seq(MatchedLines(ls), k requires 0 <= k < MatchedLines(ls) => LeadingSpaces(ls[k]))
  }

  /** The index of the first position where `a` and `b` differ, if any (the `zip` loop's `break`). */
  function Mismatch(a: string, b: string, i: nat): (r: nat)
    requires i <= |a| && i <= |b|
    ensures i <= r <= |a| && r <= |b|
    ensures forall j :: i <= j < r ==> a[j] == b[j]
    ensures r < |a| && r < |b| ==> a[r] != b[r]
    decreases |a| - i
  {
    if i == |a| || i == |b| then i
    else if a[i] != b[i] then i
    else Mismatch(a, b, i + 1)
  }

  /** One turn of the margin loop, in the source's three cases. */
  function MarginStep(margin: string, indent: string): (r: string)
    ensures IsPrefix(r, margin) && IsPrefix(r, indent)
  {
    if IsPrefix(margin, indent) then margin
    else if IsPrefix(indent, margin) then indent
    else
      var i := Mismatch(margin, indent, 0);
      assert margin[..i] == indent[..i];
      if i < |margin| && i < |indent| then margin[..i] else margin
  }

  function FoldMargin(margin: string, indents: seq<string>): string
  {
    if |indents| == 0 then margin else FoldMargin(MarginStep(margin, indents[0]), indents[1..])
  }

  /** The margin of a list of indents; None when there are none. */
  function Margin(indents: seq<string>): Option<string>
  {
    if |indents| == 0 then None else Some(FoldMargin(indents[0], indents[1..]))
  }

  lemma PrefixTrans(a: string, b: string, c: string)
    requires IsPrefix(a, b) && IsPrefix(b, c)
    ensures IsPrefix(a, c)
  {
    assert c[..|a|] == c[..|b|][..|a|];
  }

  lemma {:induction false} FoldMarginPrefix(margin: string, indents: seq<string>)
    ensures IsPrefix(FoldMargin(margin, indents), margin)
    ensures forall k :: 0 <= k < |indents| ==> IsPrefix(FoldMargin(margin, indents), indents[k])
    decreases |indents|
  {
    if |indents| > 0 {
      var m := MarginStep(margin, indents[0]);
      FoldMarginPrefix(m, indents[1..]);
      var r := FoldMargin(margin, indents);
      PrefixTrans(r, m, margin);
      PrefixTrans(r, m, indents[0]);
      assert forall k :: 1 <= k < |indents| ==> indents[k] == indents[1..][k - 1];
    }
  }

  /** The margin is a common prefix of every indent. */
  lemma MarginIsCommonPrefix(indents: seq<string>)
    requires |indents| > 0
    ensures forall k :: 0 <= k < |indents| ==> IsPrefix(Margin(indents).value, indents[k])
  {
    FoldMarginPrefix(indents[0], indents[1..]);
    assert forall k :: 1 <= k < |indents| ==> indents[k] == indents[1..][k - 1];
  }

  lemma {:induction false} FoldMarginShortest(margin: string, indents: seq<string>)
    requires Spaces(margin) && forall k :: 0 <= k < |indents| ==> Spaces(indents[k])
    ensures FoldMargin(margin, indents) == margin || FoldMargin(margin, indents) in indents
    ensures |FoldMargin(margin, indents)| <= |margin|
    ensures forall k :: 0 <= k < |indents| ==> |FoldMargin(margin, indents)| <= |indents[k]|
    decreases |indents|
  {
    if |indents| > 0 {
      var i := indents[0];
      if |margin| <= |i| {
        assert i[..|margin|] == margin;
      } else {
        assert margin[..|i|] == i;
      }
      var m := MarginStep(margin, i);
      assert m == margin || m == i;
      FoldMarginShortest(m, indents[1..]);
      assert forall k :: 1 <= k < |indents| ==> indents[k] == indents[1..][k - 1];
    }
  }

  /**
   * For space-only indents the margin is the shortest indent: the longest
   * prefix common to all of them.
   */
  lemma MarginIsShortest(indents: seq<string>)
    requires |indents| > 0 && forall k :: 0 <= k < |indents| ==> Spaces(indents[k])
    ensures Margin(indents).value in indents
    ensures forall k :: 0 <= k < |indents| ==> |Margin(indents).value| <= |indents[k]|
    ensures Spaces(Margin(indents).value)
  {
    FoldMarginShortest(indents[0], indents[1..]);
    assert forall k :: 1 <= k < |indents| ==> indents[k] == indents[1..][k - 1];
  }

  /** Remove `margin` from the start of a line that has it (one `^margin` replacement). */
  function Strip(margin: string, line: string): string
  {
    if IsPrefix(margin, line) then line[|margin|..] else line
  }

  /**
   * `PyCode.dedent`: the text with the margin removed from every line, and
   * the margin's width; the text unchanged and 0 when the margin is empty
   * or no line matched.
   */
  function DedentText(text: string): (r: (string, nat))
  {
    var m := Margin(Indents(text));
    if m.Some? && |m.value| > 0 then
      var ls := Lines(text);
      (Join(seq(|ls|, k requires 0 <= k < |ls| => Strip(m.value, ls[k]))), |m.value|)
    else (text, 0)
  }

  lemma IndentsAreSpaces(text: string)
    ensures forall k :: 0 <= k < |Indents(text)| ==> Spaces(Indents(text)[k])
  {
  }

  /** The lines of a text with a margin stripped from each. */
  function StripAll(margin: string, ls: seq<string>): (r: seq<string>)
    ensures |r| == |ls|
    ensures forall k :: 0 <= k < |ls| ==> r[k] == Strip(margin, ls[k])
  {
    seq(|ls|, k requires 0 <= k < |ls| => Strip(margin, ls[k]))
  }

  /** Stripping keeps the line structure: the dedented text splits into the stripped lines. */
  lemma StrippedLines(margin: string, text: string)
    ensures Lines(Join(StripAll(margin, Lines(text)))) == StripAll(margin, Lines(text))
  {
    var ls := Lines(text);
    var stripped := StripAll(margin, ls);
    forall k | 0 <= k < |ls| ensures '\n' !in stripped[k] {
      if IsPrefix(margin, ls[k]) {
        assert forall c :: c in stripped[k] ==> c in ls[k];
      }
    }
    LinesJoin(stripped);
  }

  /**
   * What dedent removes: the offset is the length of the shortest indent
   * among matched lines, every matched line loses exactly that many leading
   * spaces, and the line structure is kept.
   */
  lemma DedentStrips(text: string)
    ensures var (out, offset) := DedentText(text);
            var ls := Lines(text);
            && |Lines(out)| == |ls|
            && (forall k :: 0 <= k < |Indents(text)| ==> offset <= |Indents(text)[k]|)
            && (offset > 0 ==> exists k :: 0 <= k < |Indents(text)| && |Indents(text)[k]| == offset)
            && (forall k :: 0 <= k < MatchedLines(ls) ==> offset <= |ls[k]| && Lines(out)[k] == ls[k][offset..])
            && (offset > 0 ==> Lines(out) == StripAll(Margin(Indents(text)).value, ls))
  {
    var ls := Lines(text);
    var ind := Indents(text);
    var (out, offset) := DedentText(text);
    var m := Margin(ind);
    if m.Some? {
      MarginIsShortest(ind);
    }
    if m.Some? && |m.value| > 0 {
      assert out == Join(StripAll(m.value, ls));
      StrippedLines(m.value, text);
      forall k | 0 <= k < MatchedLines(ls) ensures offset <= |ls[k]| && Lines(out)[k] == ls[k][offset..] {
        assert ind[k] == LeadingSpaces(ls[k]);
        PrefixTrans(m.value, ind[k], ls[k]);
      }
    } else {
      JoinLines(text);
    }
  }

  /**
   * Dedenting is idempotent: the result has no common margin left, so a
   * second dedent changes nothing and reports offset 0.
   */
  lemma DedentIdempotent(text: string)
    ensures DedentText(DedentText(text).0) == (DedentText(text).0, 0)
  {
    var ind := Indents(text);
    var m := Margin(ind);
    if m.Some? && |m.value| > 0 {
      var ls := Lines(text);
      var out := DedentText(text).0;
      MarginIsShortest(ind);
      DedentStrips(text);
      var k :| 0 <= k < |ind| && ind[k] == m.value;
      var ls2 := Lines(out);
      PrefixOfMatched(m.value, ls, ls2);
      var ind2 := Indents(out);
      PrefixTrans(m.value, ind[k], ls[k]);
      assert ls2[k] == ls[k][|m.value|..];
      assert ind2[k] == LeadingSpaces(ls2[k]);
      assert ls[k][..|m.value|] == m.value;
      assert |ls[k]| > |m.value| ==> ls[k][|m.value|] != ' ';
      assert LeadingSpaces(ls2[k]) == "";
      MarginIsCommonPrefix(ind2);
    }
  }

  /** Stripping spaces keeps whether the last line holds anything but spaces. */
  lemma PrefixOfMatched(margin: string, ls: seq<string>, ls2: seq<string>)
    requires |ls| >= 1 && |ls2| == |ls|
    requires Spaces(margin)
    requires forall k :: 0 <= k < |ls| ==> ls2[k] == Strip(margin, ls[k])
    ensures MatchedLines(ls2) == MatchedLines(ls)
  {
    var last := |ls| - 1;
    if IsPrefix(margin, ls[last]) {
      assert ls2[last] == ls[last][|margin|..];
      if HasNonSpace(ls[last]) {
        var i :| 0 <= i < |ls[last]| && ls[last][i] != ' ';
        assert i >= |margin|;
        assert ls2[last][i - |margin|] != ' ';
      }
      if HasNonSpace(ls2[last]) {
        var i :| 0 <= i < |ls2[last]| && ls2[last][i] != ' ';
        assert ls[last][i + |margin|] != ' ';
      }
    }
  }

  /** Text without a newline is a single line. */
  lemma {:induction false} OneLine(text: string)
    requires '\n' !in text
    ensures Lines(text) == [text]
  {
    if |text| > 0 {
      assert forall c :: c in text[1..] ==> c in text;
      OneLine(text[1..]);
      assert [text[0]] + text[1..] == text;
    }
  }

  /** The three compilation modes of a code block. */
  datatype Mode = Eval | Exec | Hide

  /** A code block: its (possibly dedented) source, the removed column offset, and its mode. */
  datatype PyCode = PyCode(source: string, colOffset: nat, mode: Mode)

  /**
   * `PyCode.__init__` as written: it tests `self.mode` before assigning it,
   * so the test always sees the class default `eval` and never dedents.
   */
  function NewPyCodeAsWritten(source: string, mode: Mode): (c: PyCode)
    ensures c.mode == mode
    ensures c == PyCode(source, 0, mode)
  {
    var modeSoFar := Eval;
    if modeSoFar != Eval then
      var (text, offset) := DedentText(source);
      PyCode(text, offset, mode)
    else PyCode(source, 0, mode)
  }

  /** `PyCode.__init__` as intended: code compiled as statements (exec, hide) is dedented. */
  function NewPyCode(source: string, mode: Mode): (c: PyCode)
    ensures c.mode == mode
  {
    if mode != Eval then
      var (text, offset) := DedentText(source);
      PyCode(text, offset, mode)
    else PyCode(source, 0, mode)
  }

  /** As written, an indented statement block keeps its indentation and reports offset 0. */
  lemma AsWrittenKeepsIndent()
    ensures NewPyCodeAsWritten("  pass", Exec) == PyCode("  pass", 0, Exec)
    ensures NewPyCode("  pass", Exec) == PyCode("pass", 2, Exec)
  {
    DedentTwoSpaces();
  }

  /** Dedenting a one-line block indented by two spaces. */
  lemma DedentTwoSpaces()
    ensures DedentText("  pass") == ("pass", 2)
  {
    var t := "  pass";
    OneLine(t);
    assert t[2] != ' ';
    assert HasNonSpace(t);
    assert LeadingSpaces(t) == "  " by {
      assert LeadingSpaces("pass") == "";
      assert LeadingSpaces(" pass") == " ";
    }
    assert Indents(t) == ["  "];
    assert Margin(["  "]) == Some("  ");
    assert seq(1, k requires 0 <= k < 1 => Strip("  ", [t][k])) == ["pass"];
  }

  /**
   * The corrected constructor keeps a statement block's text up to its
   * margin: no margin is left, and expressions are kept verbatim.
   */
  lemma NewPyCodeDedents(source: string, mode: Mode)
    ensures mode == Eval ==> NewPyCode(source, mode) == PyCode(source, 0, mode)
    ensures mode != Eval ==> DedentText(NewPyCode(source, mode).source).1 == 0
    ensures mode != Eval ==> NewPyCode(source, mode).source == DedentText(source).0
    ensures mode != Eval ==> NewPyCode(source, mode).colOffset == DedentText(source).1
  {
    if mode != Eval {
      DedentIdempotent(source);
    }
  }
}
