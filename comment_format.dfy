/**
 * The text `SectionSetComment` stores for a section: `;` in front of the comment and after every line
 * break, where a line break is `\r`, `\n`, `\r\n` or `\n\r` and is kept as written.
 */
module CommentFormat {

  predicate IsBreak(c: char)
  {
    c == '\r' || c == '\n'
  }

  /** The character that completes a two-character line break begun by `c`. */
  function Partner(c: char): char
  {
    if c == '\r' then '\n' else '\r'
  }

  /** The comment with `;` inserted after each line break (the leading `;` is added by the caller). */
  function CommentBody(c: string): string
  {
    if c == [] then []
    else if IsBreak(c[0]) then
      if |c| > 1 && c[1] == Partner(c[0]) then [c[0], c[1], ';'] + CommentBody(c[2..])
      else [c[0], ';'] + CommentBody(c[1..])
    else [c[0]] + CommentBody(c[1..])
  }

  /** The stored comment text for a non-empty comment. */
  function Commented(c: string): string
  {
    ";" + CommentBody(c)
  }

  /** The text stored for a comment: `;` alone for an empty one. */
  function StoredComment(c: string): string
  {
    if c == [] then ";" else Commented(c)
  }

  /** Only `;` is added: a character other than `;` is in the stored text only if it is in the comment. */
  lemma {:induction false} CommentBodyAdds(c: string, x: char)
    requires x != ';' && x !in c
    ensures x !in CommentBody(c)
  {
    if c != [] {
      assert c[0] != x;
      if IsBreak(c[0]) && |c| > 1 && c[1] == Partner(c[0]) {
        assert x !in c[2..] && c[1] != x by { assert c[1] in c; }
        CommentBodyAdds(c[2..], x);
      } else {
        assert x !in c[1..];
        CommentBodyAdds(c[1..], x);
      }
    }
  }

  /** The inverse of `CommentBody`: drop the one `;` that follows each line break. */
  function Uncomment(r: string): string
  {
    if r == [] then []
    else if IsBreak(r[0]) then
      if |r| > 1 && r[1] == Partner(r[0]) then
        if |r| > 2 && r[2] == ';' then [r[0], r[1]] + Uncomment(r[3..]) else [r[0], r[1]] + Uncomment(r[2..])
      else if |r| > 1 && r[1] == ';' then [r[0]] + Uncomment(r[2..])
      else [r[0]] + Uncomment(r[1..])
    else [r[0]] + Uncomment(r[1..])
  }

  /** No comment text is lost: removing the inserted `;` gives the comment back. */
  lemma {:induction false} UncommentRoundTrip(c: string)
    ensures Uncomment(CommentBody(c)) == c
  {
    if c == [] {
    } else if IsBreak(c[0]) {
      if |c| > 1 && c[1] == Partner(c[0]) {
        UncommentRoundTrip(c[2..]);
        var r := CommentBody(c);
        assert r[3..] == CommentBody(c[2..]);
        assert [c[0], c[1]] + c[2..] == c;
      } else {
        UncommentRoundTrip(c[1..]);
        var r := CommentBody(c);
        assert r[2..] == CommentBody(c[1..]);
        assert [c[0]] + c[1..] == c;
      }
    } else {
      UncommentRoundTrip(c[1..]);
      var r := CommentBody(c);
      assert r[1..] == CommentBody(c[1..]);
      assert [c[0]] + c[1..] == c;
    }
  }

  /** Every line break is followed by `;`, directly or after the second character of a two-character break. */
  predicate EveryLineMarked(r: string)
  {
    forall i :: 0 <= i < |r| ==> MarkedAt(r, i)
  }

  /** The character at `i` is no line break, or the line after it starts with `;`. */
  predicate MarkedAt(r: string, i: nat)
    requires i < |r|
  {
    IsBreak(r[i]) ==>
      i + 1 < |r| && (r[i + 1] == ';' || (r[i + 1] == Partner(r[i]) && i + 2 < |r| && r[i + 2] == ';'))
  }

  lemma MarkedConcat(a: string, b: string)
    requires EveryLineMarked(a) && EveryLineMarked(b)
    requires a == [] || !IsBreak(a[|a| - 1])
    ensures EveryLineMarked(a + b)
  {
    var r := a + b;
    forall i | 0 <= i < |r|
      ensures MarkedAt(r, i)
    {
      if i < |a| {
        assert MarkedAt(a, i);
        assert r[i] == a[i];
        if i + 1 < |a| {
          assert r[i + 1] == a[i + 1];
        }
        if i + 2 < |a| {
          assert r[i + 2] == a[i + 2];
        }
      } else {
        var j := i - |a|;
        assert MarkedAt(b, j);
        assert r[i] == b[j];
        if j + 1 < |b| {
          assert r[i + 1] == b[j + 1];
        }
        if j + 2 < |b| {
          assert r[i + 2] == b[j + 2];
        }
      }
    }
  }

  /** Each line of a stored comment starts with `;`, so the whole block reads as comment lines. */
  lemma {:induction false} CommentBodyMarked(c: string)
    ensures EveryLineMarked(CommentBody(c))
    ensures CommentBody(c) == [] || !IsBreak(CommentBody(c)[|CommentBody(c)| - 1])
  {
    if c == [] {
    } else {
      var head, tail :=
        if IsBreak(c[0]) && |c| > 1 && c[1] == Partner(c[0]) then [c[0], c[1], ';']
        else if IsBreak(c[0]) then [c[0], ';']
        else [c[0]],
        if IsBreak(c[0]) && |c| > 1 && c[1] == Partner(c[0]) then c[2..] else c[1..];
      assert CommentBody(c) == head + CommentBody(tail);
      CommentBodyMarked(tail);
      MarkedConcat(head, CommentBody(tail));
      var r := CommentBody(tail);
      if r != [] {
        assert (head + r)[|head + r| - 1] == r[|r| - 1];
      }
    }
  }

  /** The stored text starts with `;` and every line after a break starts with `;` too. */
  lemma CommentedMarked(c: string)
    ensures Commented(c)[0] == ';'
    ensures EveryLineMarked(Commented(c))
  {
    CommentBodyMarked(c);
    MarkedConcat(";", CommentBody(c));
  }

  /** How `CommentBody` proceeds from position `i`: one character, or a whole line break and its `;`. */
  lemma CommentBodyAt(c: string, i: nat)
    requires i < |c|
    ensures !IsBreak(c[i]) ==> CommentBody(c[i..]) == [c[i]] + CommentBody(c[i + 1..])
    ensures IsBreak(c[i]) && i + 1 < |c| && c[i + 1] == Partner(c[i]) ==>
      CommentBody(c[i..]) == [c[i], c[i + 1], ';'] + CommentBody(c[i + 2..])
    ensures IsBreak(c[i]) && !(i + 1 < |c| && c[i + 1] == Partner(c[i])) ==>
      CommentBody(c[i..]) == [c[i], ';'] + CommentBody(c[i + 1..])
  {
    assert c[i..][1..] == c[i + 1..];
    if i + 1 < |c| {
      assert c[i..][2..] == c[i + 2..];
    }
  }

  /** Appending a piece to the output and dropping it from what is left keeps the loop's equation. */
  lemma ShiftPiece(r: string, piece: string, rest: string, whole: string)
    requires r + (piece + rest) == whole
    ensures (r + piece) + rest == whole
  {
  }

  /**
   * The loop of `SectionSetComment`: copy each character; on `\r` or `\n` also take the partner
   * character when it follows, then append `;`.
   */
  method FormatComment(comment: string) returns (r: string)
    ensures r == Commented(comment)
  {
    r := ";";
    var i := 0;
    while i < |comment|
      invariant 0 <= i <= |comment|
      invariant r + CommentBody(comment[i..]) == Commented(comment)
    {
      CommentBodyAt(comment, i);
      var prev: char;
      var next: char;
      if comment[i] == '\r' {
        prev, next := '\r', '\n';
      } else if comment[i] == '\n' {
        prev, next := '\n', '\r';
      } else {
        ShiftPiece(r, [comment[i]], CommentBody(comment[i + 1..]), Commented(comment));
        r := r + [comment[i]];
        i := i + 1;
        continue;
      }
      if i + 1 < |comment| && comment[i + 1] == next {
        ShiftPiece(r, [prev, next, ';'], CommentBody(comment[i + 2..]), Commented(comment));
        assert r + [prev] + [next] + ";" == r + [prev, next, ';'];
        i := i + 1;
        r := r + [prev] + [next];
      } else {
        ShiftPiece(r, [prev, ';'], CommentBody(comment[i + 1..]), Commented(comment));
        assert r + [prev] + ";" == r + [prev, ';'];
        r := r + [prev];
      }
      r := r + ";";
      i := i + 1;
    }
  }
}
