/**
 * Lines in a text file, as `StreamWriter.WriteLine` writes them and `StreamReader.ReadLine` reads them
 * back. `WriteLine` ends each string with `Environment.NewLine` (`\r\n` or `\n`); `ReadLine` ends a
 * line at `\r`, `\n` or `\r\n`, and gives no empty line after a break that ends the text. A string
 * holding a line break is therefore read back as several lines.
 */
module LineBreaks {
  import opened Wrappers
  import opened CommentFormat

  predicate NoBreak(w: string)
  {
    forall i :: 0 <= i < |w| ==> !IsBreak(w[i])
  }

  /** `w` does not end with a line break, so the new line written after it is a break of its own. */
  predicate EndsLine(w: string)
  {
    w == [] || !IsBreak(w[|w| - 1])
  }

  /** Every string of `ws` ends with a character that is no line break (or is empty). */
  predicate EveryEndsLine(ws: seq<string>)
  {
    forall j :: 0 <= j < |ws| ==> EndsLine(ws[j])
  }

  /** The index of the first line break of `w`, or `|w|`. */
  function FirstBreak(w: string): (r: nat)
    ensures r <= |w|
    ensures forall j :: 0 <= j < r ==> !IsBreak(w[j])
    ensures r < |w| ==> IsBreak(w[r])
  {
    if w == [] || IsBreak(w[0]) then 0
    else
      var r := 1 + FirstBreak(w[1..]);
      assert forall j :: 1 <= j < r ==> w[j] == w[1..][j - 1];
      r
  }

  /** The first break of a concatenation: the first break of `w`, or one in `x` after all of `w`. */
  lemma {:induction false} FirstBreakConcat(w: string, x: string)
    ensures FirstBreak(w + x) == if FirstBreak(w) < |w| then FirstBreak(w) else |w| + FirstBreak(x)
  {
    if w == [] {
      assert w + x == x;
    } else {
      assert (w + x)[0] == w[0];
      if !IsBreak(w[0]) {
        assert (w + x)[1..] == w[1..] + x;
        FirstBreakConcat(w[1..], x);
      }
    }
  }

  /** The length of the line break that starts at `i`: two for `\r\n`, one otherwise. */
  function BreakLength(w: string, i: nat): nat
    requires i < |w|
  {
    if w[i] == '\r' && i + 1 < |w| && w[i + 1] == '\n' then 2 else 1
  }

  /** The lines of `w` followed by a line break: the text between breaks, the last part even when empty. */
  function SplitLines(w: string): (ls: seq<string>)
    ensures |ls| >= 1
    decreases |w|
  {
    var i := FirstBreak(w);
    if i == |w| then [w] else [w[..i]] + SplitLines(w[i + BreakLength(w, i)..])
  }

  /** `ReadLine` until it returns `null`: the lines of a text, none holding a line break. */
  function ReadText(t: string): seq<string>
    decreases |t|
  {
    if t == [] then []
    else
      var i := FirstBreak(t);
      if i == |t| then [t] else [t[..i]] + ReadText(t[i + BreakLength(t, i)..])
  }

  /** How `SplitLines` proceeds at the first break of a string. */
  lemma SplitLinesAt(w: string, i: nat)
    requires i == FirstBreak(w) && i < |w|
    ensures SplitLines(w) == [w[..i]] + SplitLines(w[i + BreakLength(w, i)..])
  {
  }

  /** How `ReadText` proceeds at the first break of a text. */
  lemma ReadTextAt(t: string, i: nat)
    requires i == FirstBreak(t) && i < |t|
    ensures ReadText(t) == [t[..i]] + ReadText(t[i + BreakLength(t, i)..])
  {
  }

  /** No line read holds a line break. */
  lemma {:induction false} ReadTextNoBreak(t: string)
    ensures forall j :: 0 <= j < |ReadText(t)| ==> NoBreak(ReadText(t)[j])
    decreases |t|
  {
    if t != [] {
      var i := FirstBreak(t);
      if i < |t| {
        ReadTextNoBreak(t[i + BreakLength(t, i)..]);
      }
    }
  }

  /** The two values of `Environment.NewLine`. */
  predicate IsNewLine(nl: string)
  {
    nl == "\r\n" || nl == "\n"
  }

  /** The text of a file written by one `WriteLine` for each string of `ws`. */
  function WriteText(ws: seq<string>, nl: string): string
  {
    if ws == [] then [] else ws[0] + (nl + WriteText(ws[1..], nl))
  }

  /** The lines read back from what `WriteLine` wrote for each string of `ws`, one string at a time. */
  function ReadBack(ws: seq<string>): seq<string>
  {
    if ws == [] then [] else SplitLines(ws[0]) + ReadBack(ws[1..])
  }

  lemma ReadBackOne(w: string)
    requires NoBreak(w)
    ensures ReadBack([w]) == [w]
  {
    SplitPlain(w);
    assert [w][1..] == [];
  }

  lemma {:induction false} ReadBackAppend(a: seq<string>, b: seq<string>)
    ensures ReadBack(a + b) == ReadBack(a) + ReadBack(b)
  {
    if a == [] {
      assert a + b == b;
    } else {
      assert (a + b)[0] == a[0] && (a + b)[1..] == a[1..] + b;
      ReadBackAppend(a[1..], b);
    }
  }

  lemma EveryEndsLineAppend(a: seq<string>, b: seq<string>)
    requires EveryEndsLine(a) && EveryEndsLine(b)
    ensures EveryEndsLine(a + b)
  {
    forall j | 0 <= j < |a + b| ensures EndsLine((a + b)[j]) {
      if j < |a| {
        assert (a + b)[j] == a[j];
      } else {
        assert (a + b)[j] == b[j - |a|];
      }
    }
  }

  lemma NoBreakConcat(a: string, b: string)
    requires NoBreak(a) && NoBreak(b)
    ensures NoBreak(a + b)
  {
    forall i | 0 <= i < |a + b| ensures !IsBreak((a + b)[i]) {
      if i < |a| {
        assert (a + b)[i] == a[i];
      } else {
        assert (a + b)[i] == b[i - |a|];
      }
    }
  }

  lemma NoBreakEnds(w: string)
    requires NoBreak(w)
    ensures EndsLine(w)
  {
    if w != [] {
      assert !IsBreak(w[|w| - 1]);
    }
  }

  /** A string without line breaks is one line. */
  lemma SplitPlain(w: string)
    requires NoBreak(w)
    ensures SplitLines(w) == [w]
  {
    FirstBreakNone(w);
  }

  lemma {:induction false} FirstBreakNone(w: string)
    requires NoBreak(w)
    ensures FirstBreak(w) == |w|
  {
    if w != [] {
      assert !IsBreak(w[0]);
      assert forall j :: 0 <= j < |w[1..]| ==> w[1..][j] == w[j + 1];
      FirstBreakNone(w[1..]);
    }
  }

  /** Strings without line breaks are read back as written. */
  lemma {:induction false} ReadBackPlain(ws: seq<string>)
    requires forall j :: 0 <= j < |ws| ==> NoBreak(ws[j])
    ensures ReadBack(ws) == ws
  {
    if ws != [] {
      SplitPlain(ws[0]);
      ReadBackPlain(ws[1..]);
    }
  }

  /** One `WriteLine`: the lines of `w`, then whatever follows is read on its own. */
  lemma {:induction false} TerminatedLine(w: string, nl: string, more: string)
    requires IsNewLine(nl) && EndsLine(w)
    ensures ReadText(w + (nl + more)) == SplitLines(w) + ReadText(more)
    decreases |w|
  {
    if FirstBreak(w) == |w| {
      TerminatedPlain(w, nl, more);
    } else {
      TerminatedAtBreak(w, nl, more, FirstBreak(w));
    }
  }

  lemma TerminatedPlain(w: string, nl: string, more: string)
    requires IsNewLine(nl) && FirstBreak(w) == |w|
    ensures ReadText(w + (nl + more)) == SplitLines(w) + ReadText(more)
  {
    var after := nl + more;
    var t := w + after;
    FirstBreakConcat(w, after);
    assert after[0] == nl[0];
    assert FirstBreak(t) == |w|;
    ReadTextAt(t, |w|);
    assert t[|w|] == after[0] && t[..|w|] == w;
    if nl == "\r\n" {
      assert t[|w| + 1] == after[1];
      assert BreakLength(t, |w|) == 2;
      assert t[|w| + 2..] == after[2..] == more;
    } else {
      assert BreakLength(t, |w|) == 1;
      assert t[|w| + 1..] == after[1..] == more;
    }
  }

  lemma {:induction false} TerminatedAtBreak(w: string, nl: string, more: string, i: nat)
    requires IsNewLine(nl) && EndsLine(w)
    requires i == FirstBreak(w) && i < |w|
    ensures ReadText(w + (nl + more)) == SplitLines(w) + ReadText(more)
    decreases |w|, 0
  {
    var after := nl + more;
    var t := w + after;
    FirstBreakConcat(w, after);
    assert i + 1 < |w|;
    assert t[i] == w[i] && t[i + 1] == w[i + 1];
    var l := BreakLength(w, i);
    assert BreakLength(t, i) == l;
    var tail := w[i + l..];
    var head := w[..i];
    assert t[..i] == head;
    SuffixOfConcat(w, after, i + l);
    assert tail != [] ==> tail[|tail| - 1] == w[|w| - 1];
    TerminatedLine(tail, nl, more);
    calc {
      ReadText(t);
      { ReadTextAt(t, i); }
      [head] + ReadText(tail + after);
      [head] + (SplitLines(tail) + ReadText(more));
      { ConcatAssoc([head], SplitLines(tail), ReadText(more)); }
      ([head] + SplitLines(tail)) + ReadText(more);
      { SplitLinesAt(w, i); }
      SplitLines(w) + ReadText(more);
    }
  }

  lemma SuffixOfConcat(w: string, x: string, k: nat)
    requires k <= |w|
    ensures (w + x)[k..] == w[k..] + x
  {
  }

  /** Reading a written file gives the lines of each string written, in order. */
  lemma {:induction false} WriteThenRead(ws: seq<string>, nl: string)
    requires IsNewLine(nl) && EveryEndsLine(ws)
    ensures ReadText(WriteText(ws, nl)) == ReadBack(ws)
  {
    if ws != [] {
      assert EndsLine(ws[0]);
      assert forall j :: 0 <= j < |ws[1..]| ==> ws[1..][j] == ws[j + 1];
      TerminatedLine(ws[0], nl, WriteText(ws[1..], nl));
      WriteThenRead(ws[1..], nl);
    }
  }

  /** Lines without breaks survive a write and a read. */
  lemma WritePlainThenRead(ws: seq<string>, nl: string)
    requires IsNewLine(nl) && forall j :: 0 <= j < |ws| ==> NoBreak(ws[j])
    ensures ReadText(WriteText(ws, nl)) == ws
  {
    assert EveryEndsLine(ws) by {
      forall j | 0 <= j < |ws| ensures EndsLine(ws[j]) {
        assert NoBreak(ws[j]);
        if ws[j] != [] {
          assert !IsBreak(ws[j][|ws[j]| - 1]);
        }
      }
    }
    WriteThenRead(ws, nl);
    ReadBackPlain(ws);
  }

  /** A value holding a line break does not survive: `a`, break, `b` is read back as two lines. */
  lemma BreakSplitsValue(nl: string)
    requires IsNewLine(nl)
    ensures ReadText(WriteText(["a\nb"], nl)) == ["a", "b"]
  {
    var w := "a\nb";
    assert EveryEndsLine([w]);
    WriteThenRead([w], nl);
    FirstBreakConcat("a", "\nb");
    assert "a" + "\nb" == w;
    assert w[2..] == "b";
    SplitPlain("b");
  }

  // ---------------------------------------------------------------- stored comments

  lemma MarkedSuffix(r: string, k: nat)
    requires EveryLineMarked(r) && k <= |r|
    ensures EveryLineMarked(r[k..])
  {
    var t := r[k..];
    forall i | 0 <= i < |t| ensures MarkedAt(t, i) {
      assert MarkedAt(r, k + i);
      assert t[i] == r[k + i];
      if i + 1 < |t| {
        assert t[i + 1] == r[k + i + 1];
      }
      if i + 2 < |t| {
        assert t[i + 2] == r[k + i + 2];
      }
    }
  }

  /** A line the load pass skips whatever section is current: empty, or a `;` comment without `=`. */
  predicate IsCommentLine(l: string)
  {
    (l == [] || l[0] == ';') && '=' !in l
  }

  /** A text in which `;` follows every line break does not end with a break. */
  lemma MarkedEnds(r: string)
    requires EveryLineMarked(r)
    ensures EndsLine(r)
  {
    if r != [] {
      assert MarkedAt(r, |r| - 1);
    }
  }

  /**
   * A text without `=` in which `;` follows every line break (directly, or after the partner of the
   * break), and which starts with `;` or a break, splits into comment lines.
   */
  lemma {:induction false} MarkedLines(r: string)
    requires EveryLineMarked(r) && '=' !in r
    requires r == [] || r[0] == ';' || IsBreak(r[0])
    ensures forall j :: 0 <= j < |SplitLines(r)| ==> IsCommentLine(SplitLines(r)[j])
    decreases |r|
  {
    var i := FirstBreak(r);
    if i == |r| {
      assert SplitLines(r) == [r];
    } else {
      var head := r[..i];
      assert i > 0 ==> !IsBreak(r[0]) && head[0] == r[0];
      assert forall c :: c in head ==> c in r;
      assert MarkedAt(r, i);
      var l := BreakLength(r, i);
      var tail := r[i + l..];
      assert l == 2 ==> tail[0] == r[i + 2];
      assert l == 1 ==> tail[0] == r[i + 1];
      assert forall c :: c in tail ==> c in r;
      MarkedSuffix(r, i + l);
      MarkedLines(tail);
      SplitLinesAt(r, i);
      AllCons(head, SplitLines(tail));
    }
  }

  lemma AllCons(head: string, ls: seq<string>)
    requires IsCommentLine(head) && forall j :: 0 <= j < |ls| ==> IsCommentLine(ls[j])
    ensures forall j :: 0 <= j < |[head] + ls| ==> IsCommentLine(([head] + ls)[j])
  {
    forall j | 0 <= j < |[head] + ls| ensures IsCommentLine(([head] + ls)[j]) {
      if j > 0 {
        assert ([head] + ls)[j] == ls[j - 1];
      }
    }
  }
}
