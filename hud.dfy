/** The word wrap of `_updateHUD` (js/app.js:153-166): the words of the HUD
    text are laid into lines, each word followed by a space, and a new line is
    opened when the word would make the last line wider than the canvas. The
    canvas's `measureText(...).width` is the parameter `measure`; the drawing
    of the lines is not modelled. */
module Hud {

  /** The words, each followed by one space, run together. */
  function Spaced(words: seq<string>): string {
    if words == [] then ""
    else Spaced(words[..|words| - 1]) + words[|words| - 1] + " "
  }

  /** The lines, run together. */
  function Concat(lines: seq<string>): string {
    if lines == [] then ""
    else Concat(lines[..|lines| - 1]) + lines[|lines| - 1]
  }

  /** The words of a sequence of word groups, in order. */
  function Flatten(groups: seq<seq<string>>): seq<string> {
    if groups == [] then []
    else Flatten(groups[..|groups| - 1]) + groups[|groups| - 1]
  }

  /** One step of the `reduce`: try the word on the last line; if the result
      measures wider than `width`, push the word as a line of its own (the
      last line stays as it was), else the last line becomes the tried line. */
  function AddWord(lines: seq<string>, word: string, measure: string -> real, width: real): seq<string>
    requires |lines| >= 1
  {
    var testLine := lines[|lines| - 1] + word + " ";
    if measure(testLine) > width then lines + [word + " "]
    else lines[..|lines| - 1] + [testLine]
  }

  /** The lines `_updateHUD` draws for `words` (the text split at spaces),
      starting from one empty line. */
  function WrapLines(words: seq<string>, measure: string -> real, width: real): (lines: seq<string>)
    ensures 1 <= |lines| <= |words| + 1
  {
    if words == [] then [""]
    else AddWord(WrapLines(words[..|words| - 1], measure, width), words[|words| - 1], measure, width)
  }

  /** The step of `AddWord`, on groups of words instead of lines. */
  function AddToGroups(groups: seq<seq<string>>, word: string, measure: string -> real, width: real): seq<seq<string>>
    requires |groups| >= 1
  {
    var last := groups[|groups| - 1];
    if measure(Spaced(last) + word + " ") > width then groups + [[word]]
    else groups[..|groups| - 1] + [last + [word]]
  }

  /** The same fold, recording which words went into which line: the
      reference the lemmas below compare `WrapLines` against. */
  function WrapGroups(words: seq<string>, measure: string -> real, width: real): (groups: seq<seq<string>>)
    ensures 1 <= |groups| <= |words| + 1
  {
    if words == [] then [[]]
    else AddToGroups(WrapGroups(words[..|words| - 1], measure, width), words[|words| - 1], measure, width)
  }

  lemma {:induction false} SpacedSnoc(words: seq<string>, word: string)
    ensures Spaced(words + [word]) == Spaced(words) + word + " "
  {
    assert (words + [word])[..|words|] == words;
  }

  lemma {:induction false} SpacedSingle(word: string)
    ensures Spaced([word]) == word + " "
  {
    assert [word][..0] == [];
  }

  lemma {:induction false} SpacedEmpty(words: seq<string>)
    ensures Spaced(words) == "" <==> words == []
  {
    if words != [] {
      assert |Spaced(words)| >= 1;
    }
  }

  lemma {:induction false} FlattenSnoc(groups: seq<seq<string>>, group: seq<string>)
    ensures Flatten(groups + [group]) == Flatten(groups) + group
  {
    assert (groups + [group])[..|groups|] == groups;
  }

  lemma {:induction false} ConcatSnoc(lines: seq<string>, line: string)
    ensures Concat(lines + [line]) == Concat(lines) + line
  {
    assert (lines + [line])[..|lines|] == lines;
  }

  /** Line k is the words of group k, each followed by a space. */
  ghost predicate Spells(lines: seq<string>, groups: seq<seq<string>>) {
    |lines| == |groups| && forall k :: 0 <= k < |lines| ==> lines[k] == Spaced(groups[k])
  }

  lemma {:induction false} LinesSpellGroups(words: seq<string>, measure: string -> real, width: real)
    ensures Spells(WrapLines(words, measure, width), WrapGroups(words, measure, width))
  {
    if words == [] {
      assert Spaced([]) == "";
    } else {
      var prefix := words[..|words| - 1];
      LinesSpellGroups(prefix, measure, width);
      AddWordSpells(WrapLines(prefix, measure, width), WrapGroups(prefix, measure, width),
                    words[|words| - 1], measure, width);
    }
  }

  /** Both steps take the same decision, so they keep the lines and the
      groups in step. */
  lemma {:induction false} AddWordSpells(lines: seq<string>, groups: seq<seq<string>>, word: string,
                      measure: string -> real, width: real)
    requires |lines| >= 1 && Spells(lines, groups)
    ensures Spells(AddWord(lines, word, measure, width), AddToGroups(groups, word, measure, width))
  {
    var n := |groups| - 1;
    var last := groups[n];
    var testLine := lines[n] + word + " ";
    SpacedSnoc(last, word);
    assert testLine == Spaced(last) + word + " ";
    var lines', groups' := AddWord(lines, word, measure, width), AddToGroups(groups, word, measure, width);
    if measure(testLine) > width {
      SpacedSingle(word);
      assert lines'[n + 1] == word + " ";
      assert groups'[n + 1] == [word];
      forall k | 0 <= k < |lines'| ensures lines'[k] == Spaced(groups'[k]) {
        if k < n + 1 {
          assert lines'[k] == lines[k] && groups'[k] == groups[k];
        }
      }
    } else {
      assert lines'[n] == Spaced(groups'[n]);
      forall k | 0 <= k < |lines'| ensures lines'[k] == Spaced(groups'[k]) {
        if k < n {
          assert lines'[k] == lines[k] && groups'[k] == groups[k];
        }
      }
    }
  }

  /** Running the lines together gives back every word, in order, each
      followed by one space: no word is lost, repeated or reordered. */
  lemma {:induction false} WrapKeepsText(words: seq<string>, measure: string -> real, width: real)
    ensures Concat(WrapLines(words, measure, width)) == Spaced(words)
  {
    if words == [] {
      assert Concat([""]) == Concat([]) + "";
    } else {
      var prefix := words[..|words| - 1];
      var word := words[|words| - 1];
      WrapKeepsText(prefix, measure, width);
      AddWordKeepsText(WrapLines(prefix, measure, width), word, measure, width);
      assert words == prefix + [word];
      SpacedSnoc(prefix, word);
    }
  }

  /** One step of the fold adds the word and a space at the end of the text. */
  lemma {:induction false} AddWordKeepsText(lines: seq<string>, word: string, measure: string -> real, width: real)
    requires |lines| >= 1
    ensures Concat(AddWord(lines, word, measure, width)) == Concat(lines) + word + " "
  {
    var n := |lines| - 1;
    var init := lines[..n];
    var testLine := lines[n] + word + " ";
    if measure(testLine) > width {
      ConcatSnoc(lines, word + " ");
    } else {
      SplitLast(lines);
      ConcatSnoc(init, lines[n]);
      ConcatSnoc(init, testLine);
      AppendAssoc(Concat(init), lines[n], word, " ");
      assert Concat(lines) == Concat(init) + lines[n];
    }
  }

  lemma {:induction false} SplitLast<T>(s: seq<T>)
    requires |s| >= 1
    ensures s == s[..|s| - 1] + [s[|s| - 1]]
  {
  }

  lemma {:induction false} AppendAssoc(a: string, b: string, c: string, d: string)
    ensures a + (b + c + d) == a + b + c + d
  {
  }

  /** The facts the fold keeps about its groups: they hold the words in
      order, no word is split or dropped, every line after the first holds
      at least one word, a line was opened only because its first word did
      not fit after the previous line, a line that took a word by appending
      it measures at most `width`, and a first word kept on line 0 fits
      there on its own. */
  ghost predicate GroupsInvariant(words: seq<string>, groups: seq<seq<string>>,
                                  measure: string -> real, width: real)
  {
    && |groups| >= 1
    && Flatten(groups) == words
    && BreaksJustified(groups, measure, width)
    && AppendedLinesFit(groups, measure, width)
    && (|groups[0]| >= 1 ==> measure(groups[0][0] + " ") <= width)
  }

  ghost predicate BreaksJustified(groups: seq<seq<string>>, measure: string -> real, width: real) {
    forall k :: 1 <= k < |groups| ==>
      |groups[k]| >= 1 && measure(Spaced(groups[k - 1]) + groups[k][0] + " ") > width
  }

  ghost predicate AppendedLinesFit(groups: seq<seq<string>>, measure: string -> real, width: real) {
    forall k :: 0 <= k < |groups| && (|groups[k]| >= 2 || (k == 0 && |groups[k]| >= 1)) ==>
      measure(Spaced(groups[k])) <= width
  }

  lemma {:induction false} WrapGroupsInvariant(words: seq<string>, measure: string -> real, width: real)
    ensures GroupsInvariant(words, WrapGroups(words, measure, width), measure, width)
  {
    if words == [] {
      assert Flatten([[]]) == Flatten([]) + [];
    } else {
      var prefix := words[..|words| - 1];
      var word := words[|words| - 1];
      WrapGroupsInvariant(prefix, measure, width);
      var groups := WrapGroups(prefix, measure, width);
      SplitLast(words);
      if measure(Spaced(groups[|groups| - 1]) + word + " ") > width {
        PushKeepsInvariant(prefix, groups, word, measure, width);
      } else {
        AppendKeepsInvariant(prefix, groups, word, measure, width);
      }
    }
  }

  /** Opening a new line for a word that does not fit keeps the invariant. */
  lemma {:induction false} PushKeepsInvariant(words: seq<string>, groups: seq<seq<string>>, word: string,
                           measure: string -> real, width: real)
    requires GroupsInvariant(words, groups, measure, width)
    requires measure(Spaced(groups[|groups| - 1]) + word + " ") > width
    ensures GroupsInvariant(words + [word], groups + [[word]], measure, width)
  {
    var grown := groups + [[word]];
    FlattenSnoc(groups, [word]);
    SpacedSingle(word);
    forall k | 1 <= k < |grown|
      ensures |grown[k]| >= 1 && measure(Spaced(grown[k - 1]) + grown[k][0] + " ") > width
    {
      if k < |groups| {
        assert grown[k] == groups[k] && grown[k - 1] == groups[k - 1];
      }
    }
    forall k | 0 <= k < |grown| && (|grown[k]| >= 2 || (k == 0 && |grown[k]| >= 1))
      ensures measure(Spaced(grown[k])) <= width
    {
      assert grown[k] == groups[k];
    }
  }

  /** Appending a word that fits to the last line keeps the invariant. */
  lemma {:induction false} AppendKeepsInvariant(words: seq<string>, groups: seq<seq<string>>, word: string,
                             measure: string -> real, width: real)
    requires GroupsInvariant(words, groups, measure, width)
    requires measure(Spaced(groups[|groups| - 1]) + word + " ") <= width
    ensures var n := |groups| - 1;
      GroupsInvariant(words + [word], groups[..n] + [groups[n] + [word]], measure, width)
  {
    AppendKeepsWords(words, groups, word);
    AppendKeepsBreaks(groups, word, measure, width);
    AppendKeepsFit(groups, word, measure, width);
    AppendKeepsFirst(groups, word, measure, width);
  }

  lemma {:induction false} AppendKeepsWords(words: seq<string>, groups: seq<seq<string>>, word: string)
    requires |groups| >= 1 && Flatten(groups) == words
    ensures var n := |groups| - 1;
      Flatten(groups[..n] + [groups[n] + [word]]) == words + [word]
  {
    var n := |groups| - 1;
    SplitLast(groups);
    FlattenSnoc(groups[..n], groups[n]);
    FlattenSnoc(groups[..n], groups[n] + [word]);
  }

  lemma {:induction false} AppendKeepsFirst(groups: seq<seq<string>>, word: string, measure: string -> real, width: real)
    requires |groups| >= 1 && (|groups[0]| >= 1 ==> measure(groups[0][0] + " ") <= width)
    requires measure(Spaced(groups[|groups| - 1]) + word + " ") <= width
    ensures var n := |groups| - 1;
      var grown := groups[..n] + [groups[n] + [word]];
      |grown[0]| >= 1 ==> measure(grown[0][0] + " ") <= width
  {
    var n := |groups| - 1;
    var grown := groups[..n] + [groups[n] + [word]];
    if n == 0 {
      if groups[0] == [] {
        assert Spaced(groups[0]) + word + " " == word + " ";
        assert grown[0][0] == word;
      } else {
        assert grown[0][0] == groups[0][0];
      }
    } else {
      assert grown[0] == groups[0];
    }
  }

  lemma {:induction false} AppendKeepsBreaks(groups: seq<seq<string>>, word: string, measure: string -> real, width: real)
    requires |groups| >= 1 && BreaksJustified(groups, measure, width)
    ensures var n := |groups| - 1;
      BreaksJustified(groups[..n] + [groups[n] + [word]], measure, width)
  {
    var n := |groups| - 1;
    var last := groups[n];
    var grown := groups[..n] + [last + [word]];
    forall k | 1 <= k < |grown|
      ensures |grown[k]| >= 1 && measure(Spaced(grown[k - 1]) + grown[k][0] + " ") > width
    {
      if k < n {
        assert grown[k] == groups[k] && grown[k - 1] == groups[k - 1];
      } else {
        assert grown[k][0] == last[0] && grown[k - 1] == groups[k - 1];
      }
    }
  }

  lemma {:induction false} AppendKeepsFit(groups: seq<seq<string>>, word: string, measure: string -> real, width: real)
    requires |groups| >= 1 && AppendedLinesFit(groups, measure, width)
    requires measure(Spaced(groups[|groups| - 1]) + word + " ") <= width
    ensures var n := |groups| - 1;
      AppendedLinesFit(groups[..n] + [groups[n] + [word]], measure, width)
  {
    var n := |groups| - 1;
    var last := groups[n];
    var grown := groups[..n] + [last + [word]];
    SpacedSnoc(last, word);
    forall k | 0 <= k < |grown| && (|grown[k]| >= 2 || (k == 0 && |grown[k]| >= 1))
      ensures measure(Spaced(grown[k])) <= width
    {
      if k < n {
        assert grown[k] == groups[k];
      } else {
        assert grown[k] == last + [word];
      }
    }
  }

  /** A line is opened only when needed: the first word of every line after
      the first, appended to the line before, would measure wider than
      `width`. An over-wide word is not split: it gets a line to itself. */
  lemma {:induction false} BreaksOnlyWhenNeeded(words: seq<string>, measure: string -> real, width: real, k: nat)
    requires 1 <= k < |WrapGroups(words, measure, width)|
    ensures var lines, groups := WrapLines(words, measure, width), WrapGroups(words, measure, width);
      |lines| == |groups| && |groups[k]| >= 1 && measure(lines[k - 1] + groups[k][0] + " ") > width
  {
    LinesSpellGroups(words, measure, width);
    WrapGroupsInvariant(words, measure, width);
  }

  /** Every line that took a word by appending it (every non-empty first
      line, and every later line of two words or more) fits in `width`. */
  lemma {:induction false} LinesFit(words: seq<string>, measure: string -> real, width: real, k: nat)
    requires var groups := WrapGroups(words, measure, width);
      k < |groups| && (|groups[k]| >= 2 || (k == 0 && |groups[k]| >= 1))
    ensures var lines := WrapLines(words, measure, width);
      k < |lines| && measure(lines[k]) <= width
  {
    LinesSpellGroups(words, measure, width);
    WrapGroupsInvariant(words, measure, width);
  }

  /** No word is split or dropped: the groups hold the words in order. */
  lemma {:induction false} GroupsHoldWords(words: seq<string>, measure: string -> real, width: real)
    ensures Flatten(WrapGroups(words, measure, width)) == words
  {
    WrapGroupsInvariant(words, measure, width);
  }

  /** When the first word alone is too wide, the initial empty line is left
      behind as line 0; otherwise line 0 holds the first word. */
  lemma {:induction false} FirstLineEmpty(words: seq<string>, measure: string -> real, width: real)
    requires words != []
    ensures WrapLines(words, measure, width)[0] == "" <==> measure(words[0] + " ") > width
  {
    var groups := WrapGroups(words, measure, width);
    LinesSpellGroups(words, measure, width);
    WrapGroupsInvariant(words, measure, width);
    SpacedEmpty(groups[0]);
    if groups[0] == [] {
      if |groups| >= 2 {
        FirstGroupThenSecond(groups);
        assert Spaced(groups[0]) + groups[1][0] + " " == groups[1][0] + " ";
      }
    } else {
      FirstGroupThenSecond(groups);
    }
  }

  /** The first word of the flattening comes from the first non-empty of the
      first two groups. */
  lemma {:induction false} FirstGroupThenSecond(groups: seq<seq<string>>)
    requires |groups| >= 2 || (|groups| >= 1 && groups[0] != [])
    requires groups[0] != [] || groups[1] != []
    ensures |Flatten(groups)| >= 1
    ensures Flatten(groups)[0] == if groups[0] != [] then groups[0][0] else groups[1][0]
  {
    var n := if groups[0] != [] then 1 else 2;
    FlattenPrefix(groups, n);
    if n == 1 {
      assert groups[..1] == [] + [groups[0]];
      FlattenSnoc([], groups[0]);
    } else {
      assert groups[..2] == [groups[0]] + [groups[1]];
      assert [groups[0]] == [] + [groups[0]];
      FlattenSnoc([], groups[0]);
      FlattenSnoc([groups[0]], groups[1]);
    }
  }

  lemma {:induction false} FlattenPrefix(groups: seq<seq<string>>, n: nat)
    requires n <= |groups|
    ensures Flatten(groups) == Flatten(groups[..n]) + Flatten(groups[n..])
    decreases |groups|
  {
    if n < |groups| {
      var init := groups[..|groups| - 1];
      FlattenPrefix(init, n);
      assert init[..n] == groups[..n];
      assert groups[n..] == init[n..] + [groups[|groups| - 1]];
      FlattenSnoc(init[n..], groups[|groups| - 1]);
      SplitLast(groups);
    } else {
      assert groups[..n] == groups;
      assert Flatten(groups[n..]) == [];
    }
  }
}
