/**
 * What a rebuild flush writes reads back as what was written: reading the rebuilt file line by line and
 * loading it gives every section that has keys, with exactly its keys and values, whatever order the
 * dictionaries enumerate. This holds for names and entries without line breaks that survive trimming,
 * and for comments as `SectionSetComment` stores them when they hold no `=` (a comment line with `=`
 * loads as a key/value pair).
 */
module Reload {
  import opened Wrappers
  import opened Text
  import opened IniLine
  import opened Loading
  import opened Patching
  import opened FlushWriter
  import opened CommentFormat
  import opened LineBreaks

  /** Every section name and every entry of `t` is written and re-read unchanged. */
  predicate PlainTable(t: Table)
  {
    forall s :: s in t ==> IsPlainName(s) && forall k :: k in t[s] ==> IsPlainEntry(k, t[s][k])
  }

  /** A comment text as `SectionSetComment` stores it, from a comment without `=`. */
  predicate IsStoredComment(c: string)
  {
    c != [] && c[0] == ';' && EveryLineMarked(c) && '=' !in c
  }

  /** Every stored comment is read back as lines that are neither headers nor key/value pairs. */
  predicate InertComments(comments: map<string, string>)
  {
    forall s :: s in comments ==> IsStoredComment(comments[s])
  }

  /** Every comment without `=` is stored in that form. */
  lemma StoredCommentInert(c: string)
    requires '=' !in c
    ensures IsStoredComment(StoredComment(c))
  {
    if c != [] {
      CommentedMarked(c);
      CommentBodyAdds(c, '=');
    }
  }

  /** What the load pass sees of the strings `ws` after `WriteLine` wrote them and `ReadLine` read them. */
  function Reread(ws: seq<string>): seq<LineKind>
  {
    KindsOf(ReadBack(ws))
  }

  lemma RereadAppend(a: seq<string>, b: seq<string>)
    ensures Reread(a + b) == Reread(a) + Reread(b)
  {
    ReadBackAppend(a, b);
    KindsAppend(ReadBack(a), ReadBack(b));
  }

  lemma RereadPlain(ws: seq<string>)
    requires forall j :: 0 <= j < |ws| ==> NoBreak(ws[j])
    ensures Reread(ws) == KindsOf(ws)
  {
    ReadBackPlain(ws);
  }

  /** A line without breaks reads back as itself. */
  lemma PlainKind(w: string)
    requires NoBreak(w)
    ensures Reread([w]) == [KindOf(w)]
  {
    ReadBackOne(w);
    KindsOfOne(w);
  }

  /** Lines that are neither headers nor pairs. */
  predicate AllOther(ks: seq<LineKind>)
  {
    forall i :: 0 <= i < |ks| ==> ks[i] == Other
  }

  /** Inert lines leave the load pass as it was. */
  lemma {:induction false} LoadRunOthers(ks: seq<LineKind>, st: LoadState)
    requires AllOther(ks)
    ensures LoadRun(ks, st) == st
  {
    if ks != [] {
      assert ks[0] == Other;
      LoadRunOthers(ks[1..], st);
    }
  }

  /** A comment line is classified as neither header nor pair. */
  lemma CommentLineKind(l: string)
    requires IsCommentLine(l)
    ensures KindOf(l) == Other
  {
    if l == [] {
      BlankLineInert();
    } else {
      CommentIsNoHeader(l);
      NoEqualsNoEntry(l);
    }
  }

  /** A stored comment ends a line of its own and reads back as inert lines only. */
  lemma StoredCommentKinds(c: string)
    requires IsStoredComment(c)
    ensures EndsLine(c)
    ensures AllOther(Reread([c]))
  {
    MarkedEnds(c);
    MarkedLines(c);
    var ls := SplitLines(c);
    assert ReadBack([c]) == ls + ReadBack([]);
    assert ReadBack([c]) == ls;
    forall i | 0 <= i < |ls| ensures KindsOf(ls)[i] == Other {
      KindsAt(ls, i);
      CommentLineKind(ls[i]);
    }
  }

  /** The sections of `t` that have keys: those a rebuild writes a block for. */
  function NonEmpty(t: Table): (r: Table)
    ensures r.Keys <= t.Keys
    ensures forall s :: s in r <==> s in t && |t[s]| > 0
    ensures forall s :: s in r ==> r[s] == t[s]
  {
    map s | s in t && |t[s]| > 0 :: t[s]
  }

  /** The sections among `ss` that have keys in `t`, each with its keys. */
  function NonEmptyOf(ss: seq<string>, t: Table): Table
    requires forall x :: x in ss ==> x in t
  {
    if ss == [] then map[]
    else
      assert forall x :: x in ss[1..] ==> x in ss;
      var rest := NonEmptyOf(ss[1..], t);
      if |t[ss[0]]| > 0 then rest[ss[0] := t[ss[0]]] else rest
  }

  lemma {:induction false} NonEmptyOfEntries(ss: seq<string>, t: Table)
    requires forall x :: x in ss ==> x in t
    ensures forall x :: x in NonEmptyOf(ss, t) <==> x in ss && |t[x]| > 0
    ensures forall x :: x in NonEmptyOf(ss, t) ==> NonEmptyOf(ss, t)[x] == t[x]
  {
    if ss != [] {
      assert forall x :: x in ss[1..] ==> x in ss;
      NonEmptyOfEntries(ss[1..], t);
      assert forall x :: x in ss <==> x == ss[0] || x in ss[1..];
    }
  }

  // ---------------------------------------------------------------- classification of written lines

  /** The kinds of the key lines of a plain bucket: one pair per key, in the written order. */
  function PairKinds(ks: seq<string>, bucket: map<string, string>): seq<LineKind>
    requires forall k :: k in ks ==> k in bucket
  {
    seq(|ks|, i requires 0 <= i < |ks| => Pair(Entry(ks[i], bucket[ks[i]])))
  }

  /** The key lines of a plain bucket are one line each, and read back as one pair per key. */
  lemma KindsOfKeyLines(ks: seq<string>, bucket: map<string, string>)
    requires forall k :: k in ks ==> k in bucket && IsPlainEntry(k, bucket[k])
    ensures forall j :: 0 <= j < |ks| ==> NoBreak(KeyLines(ks, bucket)[j])
    ensures Reread(KeyLines(ks, bucket)) == PairKinds(ks, bucket)
  {
    forall i | 0 <= i < |ks|
      ensures NoBreak(KeyLines(ks, bucket)[i])
      ensures KindsOf(KeyLines(ks, bucket))[i] == PairKinds(ks, bucket)[i]
    {
      assert ks[i] in ks;
      KeyLinePlain(ks[i], bucket[ks[i]]);
      KindsAt(KeyLines(ks, bucket), i);
      KeyLineParses(ks[i], bucket[ks[i]]);
    }
    RereadPlain(KeyLines(ks, bucket));
  }

  lemma KeyLinePlain(k: string, v: string)
    requires IsPlainEntry(k, v)
    ensures NoBreak(KeyLine(k, v))
  {
    assert !IsBreak('=');
    NoBreakConcat(k, "=");
    NoBreakConcat(k + "=", v);
  }

  lemma HeaderLinePlain(s: string)
    requires IsPlainName(s)
    ensures NoBreak(HeaderLine(s))
  {
    NoBreakConcat("[", s);
    NoBreakConcat("[" + s, "]");
  }

  // ---------------------------------------------------------------- loading the written lines

  /** The entries of `bucket` for the keys `ks`. */
  function Picked(ks: seq<string>, bucket: map<string, string>): map<string, string>
    requires forall k :: k in ks ==> k in bucket
  {
    map k | k in ks :: bucket[k]
  }

  lemma PickedCons(ks: seq<string>, bucket: map<string, string>, m: map<string, string>)
    requires ks != [] && forall k :: k in ks ==> k in bucket
    ensures forall k :: k in ks[1..] ==> k in ks
    ensures m[ks[0] := bucket[ks[0]]] + Picked(ks[1..], bucket) == m + Picked(ks, bucket)
  {
    assert forall k :: k in ks <==> k == ks[0] || k in ks[1..];
  }

  /** The load pass over one pair line of the current section, whose key the section lacks. */
  lemma LoadPairStep(e: Entry, more: seq<LineKind>, s: string, acc: Table)
    requires s in acc && e.key !in acc[s]
    ensures LoadFrom([Pair(e)] + more, Some(s), acc) == LoadFrom(more, Some(s), acc[s := acc[s][e.key := e.value]])
  {
    var ks := [Pair(e)] + more;
    assert ks[0] == Pair(e) && ks[1..] == more;
  }

  /** Loading the pairs of a block adds them all to its section, none of its keys being there yet. */
  lemma {:induction false} LoadPairs(ks: seq<string>, bucket: map<string, string>, rest: seq<LineKind>, s: string, acc: Table)
    requires s in acc && Distinct(ks)
    requires forall k :: k in ks ==> k in bucket && k !in acc[s]
    ensures LoadFrom(PairKinds(ks, bucket) + rest, Some(s), acc) == LoadFrom(rest, Some(s), acc[s := acc[s] + Picked(ks, bucket)])
  {
    if ks == [] {
      assert PairKinds(ks, bucket) + rest == rest;
      assert Picked(ks, bucket) == map[];
      assert acc[s] + Picked(ks, bucket) == acc[s];
      assert acc[s := acc[s]] == acc;
    } else {
      var k0, tail := ks[0], ks[1..];
      assert k0 in ks;
      PickedCons(ks, bucket, acc[s]);
      assert PairKinds(ks, bucket) + rest == [Pair(Entry(k0, bucket[k0]))] + (PairKinds(tail, bucket) + rest);
      LoadPairStep(Entry(k0, bucket[k0]), PairKinds(tail, bucket) + rest, s, acc);
      var acc' := acc[s := acc[s][k0 := bucket[k0]]];
      DistinctTail(ks);
      LoadPairs(tail, bucket, rest, s, acc');
      assert acc'[s := acc'[s] + Picked(tail, bucket)] == acc[s := acc[s] + Picked(ks, bucket)];
    }
  }

  /** Orders that fit literal pieces followed by one dump are empty, then an enumeration of the bucket. */
  lemma FitsLiteralsThenDump(head: seq<string>, s: string, bucket: map<string, string>, o: seq<seq<string>>)
    requires Fits(Literals(head) + [Dump(s, bucket)], o)
    ensures o == NoOrders(|head|) + [o[|head|]]
    ensures IsEnumeration(o[|head|], bucket.Keys)
  {
    var ps := Literals(head) + [Dump(s, bucket)];
    var n := |head|;
    assert ps[n] == Dump(s, bucket);
    assert FitsOne(ps[n], o[n]);
    forall i | 0 <= i < n ensures o[i] == [] {
      assert ps[i] == Literal(head[i]);
      assert FitsOne(ps[i], o[i]);
    }
    assert o == NoOrders(n) + [o[n]];
  }

  /** The pieces of a block with keys, with orders that fit, render as the block's lines. */
  lemma RenderFittedBlock(s: string, bucket: map<string, string>, comments: map<string, string>, first: bool,
                          o: seq<seq<string>>)
    requires |bucket| > 0 && Fits(BlockOf(s, bucket, comments, first), o)
    ensures |o| >= 1 && IsEnumeration(o[|o| - 1], bucket.Keys)
    ensures Render(BlockOf(s, bucket, comments, first), o) ==
      (if first then [] else [""]) + [HeaderLine(s)] + (if s in comments then [comments[s]] else [])
      + KeyLines(o[|o| - 1], bucket)
  {
    var sep := if first then [] else [""];
    var comment := if s in comments then [comments[s]] else [];
    var head := sep + [HeaderLine(s)] + comment;
    assert BlockOf(s, bucket, comments, first) == Literals(head) + [Dump(s, bucket)] by {
      BlockOfLiterals(s, bucket, comments, first);
    }
    FitsLiteralsThenDump(head, s, bucket, o);
    RenderLiteralsThenDump(head, s, bucket, o[|head|]);
  }

  /** The load pass over a header of a section not loaded yet. */
  lemma LoadHeaderStep(s: string, more: seq<LineKind>, cur: Option<string>, acc: Table)
    requires s !in acc
    ensures LoadFrom([Header(s)] + more, cur, acc) == LoadFrom(more, Some(s), acc[s := map[]])
  {
    var ks := [Header(s)] + more;
    assert ks[0] == Header(s) && ks[1..] == more;
  }

  /** Inert lines leave the load pass as it was. */
  lemma LoadSkip(skipped: seq<LineKind>, more: seq<LineKind>, cur: Option<string>, acc: Table)
    requires AllOther(skipped)
    ensures LoadFrom(skipped + more, cur, acc) == LoadFrom(more, cur, acc)
  {
    LoadRunAppend(skipped, more, LoadState(cur, acc));
    LoadRunOthers(skipped, LoadState(cur, acc));
  }

  lemma SeparatorLines(first: bool)
    ensures EveryEndsLine(if first then [] else [""])
    ensures Reread(if first then [] else [""]) == (if first then [] else [Other])
  {
    BlankLineInert();
    assert NoBreak("");
    if first {
      assert ReadBack([]) == [];
    } else {
      PlainKind("");
    }
  }

  lemma HeaderLines(s: string)
    requires IsPlainName(s)
    ensures EveryEndsLine([HeaderLine(s)])
    ensures Reread([HeaderLine(s)]) == [Header(s)]
  {
    HeaderLinePlain(s);
    HeaderLineParses(s);
    PlainKind(HeaderLine(s));
    NoBreakEnds(HeaderLine(s));
  }

  lemma CommentLines(s: string, comments: map<string, string>)
    requires InertComments(comments)
    ensures EveryEndsLine(if s in comments then [comments[s]] else [])
    ensures AllOther(Reread(if s in comments then [comments[s]] else []))
  {
    if s in comments {
      StoredCommentKinds(comments[s]);
    } else {
      assert Reread([]) == [];
    }
  }

  /** The separator, header and comment of a block: one line each, except a comment of several lines. */
  lemma BlockHeadKinds(s: string, comments: map<string, string>, first: bool)
    requires IsPlainName(s) && InertComments(comments)
    ensures var head := (if first then [] else [""]) + [HeaderLine(s)] + (if s in comments then [comments[s]] else []);
      && EveryEndsLine(head)
      && Reread(head) == (if first then [] else [Other]) + [Header(s)] + Reread(if s in comments then [comments[s]] else [])
      && AllOther(Reread(if s in comments then [comments[s]] else []))
  {
    var sep: seq<string> := if first then [] else [""];
    var h := [HeaderLine(s)];
    var c: seq<string> := if s in comments then [comments[s]] else [];
    SeparatorLines(first);
    HeaderLines(s);
    CommentLines(s, comments);
    RereadAppend(sep, h);
    RereadAppend(sep + h, c);
    EveryEndsLineAppend(sep, h);
    EveryEndsLineAppend(sep + h, c);
  }

  /** The lines of a written block: a blank line, the header, the comment's lines, then the pairs. */
  lemma BlockKinds(s: string, bucket: map<string, string>, comments: map<string, string>, first: bool, ks: seq<string>)
    requires IsEnumeration(ks, bucket.Keys)
    requires IsPlainName(s) && forall k :: k in bucket ==> IsPlainEntry(k, bucket[k])
    requires InertComments(comments)
    ensures var lines := (if first then [] else [""]) + [HeaderLine(s)] + (if s in comments then [comments[s]] else [])
                         + KeyLines(ks, bucket);
      && EveryEndsLine(lines)
      && Reread(lines) == (if first then [] else [Other]) + [Header(s)] + Reread(if s in comments then [comments[s]] else [])
                          + PairKinds(ks, bucket)
      && AllOther(Reread(if s in comments then [comments[s]] else []))
  {
    var head := (if first then [] else [""]) + [HeaderLine(s)] + (if s in comments then [comments[s]] else []);
    var kl := KeyLines(ks, bucket);
    BlockHeadKinds(s, comments, first);
    KindsOfKeyLines(ks, bucket);
    forall j | 0 <= j < |kl| ensures EndsLine(kl[j]) {
      NoBreakEnds(kl[j]);
    }
    RereadAppend(head, kl);
    EveryEndsLineAppend(head, kl);
  }

  /** Loading the kinds of a written block opens its section and fills it with the block's bucket. */
  lemma LoadBlockKinds(s: string, bucket: map<string, string>, ks: seq<string>, sepK: seq<LineKind>, commentK: seq<LineKind>,
                       rest: seq<LineKind>, cur: Option<string>, acc: Table)
    requires IsEnumeration(ks, bucket.Keys) && s !in acc
    requires AllOther(sepK) && AllOther(commentK)
    ensures LoadFrom(sepK + [Header(s)] + commentK + PairKinds(ks, bucket) + rest, cur, acc)
         == LoadFrom(rest, Some(s), acc[s := bucket])
  {
    var afterComment := PairKinds(ks, bucket) + rest;
    var afterHeader := commentK + afterComment;
    var fromHeader := [Header(s)] + afterHeader;
    assert sepK + [Header(s)] + commentK + PairKinds(ks, bucket) + rest == sepK + fromHeader;
    var acc0 := acc[s := map[]];
    LoadSkip(sepK, fromHeader, cur, acc);
    LoadHeaderStep(s, afterHeader, cur, acc);
    LoadSkip(commentK, afterComment, Some(s), acc0);
    LoadPairs(ks, bucket, rest, s, acc0);
    assert acc0[s] + Picked(ks, bucket) == bucket;
    assert acc0[s := acc0[s] + Picked(ks, bucket)] == acc[s := bucket];
  }

  /** Loading one written block, read back, opens its section and fills it with the block's bucket. */
  lemma LoadBlock(s: string, bucket: map<string, string>, comments: map<string, string>, first: bool,
                  o: seq<seq<string>>, rest: seq<LineKind>, cur: Option<string>, acc: Table)
    requires |bucket| > 0 && Fits(BlockOf(s, bucket, comments, first), o)
    requires s !in acc && IsPlainName(s) && forall k :: k in bucket ==> IsPlainEntry(k, bucket[k])
    requires InertComments(comments)
    ensures EveryEndsLine(Render(BlockOf(s, bucket, comments, first), o))
    ensures LoadFrom(Reread(Render(BlockOf(s, bucket, comments, first), o)) + rest, cur, acc)
         == LoadFrom(rest, Some(s), acc[s := bucket])
  {
    var sepK: seq<LineKind> := if first then [] else [Other];
    var commentK := Reread(if s in comments then [comments[s]] else []);
    RenderFittedBlock(s, bucket, comments, first, o);
    BlockKinds(s, bucket, comments, first, o[|o| - 1]);
    LoadBlockKinds(s, bucket, o[|o| - 1], sepK, commentK, rest, cur, acc);
  }

  /** Orders that fit a concatenation split into orders that fit each part. */
  lemma FitsSplit(a: seq<Piece>, b: seq<Piece>, o: seq<seq<string>>)
    requires Fits(a + b, o)
    ensures Fits(a, o[..|a|]) && Fits(b, o[|a|..]) && o == o[..|a|] + o[|a|..]
  {
    forall i | 0 <= i < |a| ensures FitsOne(a[i], o[..|a|][i]) {
      assert (a + b)[i] == a[i];
    }
    forall i | 0 <= i < |b| ensures FitsOne(b[i], o[|a|..][i]) {
      assert (a + b)[|a| + i] == b[i];
    }
  }

  /** Rendering a concatenation of pieces, then reading it back, splits at the boundary. */
  lemma RereadRenderSplit(a: seq<Piece>, b: seq<Piece>, o: seq<seq<string>>)
    requires Fits(a + b, o)
    ensures Fits(a, o[..|a|]) && Fits(b, o[|a|..])
    ensures Render(a + b, o) == Render(a, o[..|a|]) + Render(b, o[|a|..])
    ensures Reread(Render(a + b, o)) == Reread(Render(a, o[..|a|])) + Reread(Render(b, o[|a|..]))
  {
    FitsSplit(a, b, o);
    RenderAppend(a, o[..|a|], b, o[|a|..]);
    RereadAppend(Render(a, o[..|a|]), Render(b, o[|a|..]));
  }

  lemma NonEmptyOfCons(ss: seq<string>, t: Table, acc: Table)
    requires ss != [] && Distinct(ss) && forall x :: x in ss ==> x in t
    ensures forall x :: x in ss[1..] ==> x in t
    ensures |t[ss[0]]| > 0 ==> acc[ss[0] := t[ss[0]]] + NonEmptyOf(ss[1..], t) == acc + NonEmptyOf(ss, t)
    ensures |t[ss[0]]| == 0 ==> NonEmptyOf(ss[1..], t) == NonEmptyOf(ss, t)
  {
    assert forall x :: x in ss[1..] ==> x in ss;
    if |t[ss[0]]| > 0 {
      NonEmptyOfEntries(ss[1..], t);
      assert ss[0] !in ss[1..];
      UpdateThenMerge(acc, NonEmptyOf(ss[1..], t), ss[0], t[ss[0]]);
    }
  }

  lemma UpdateThenMerge(acc: Table, rest: Table, s: string, v: map<string, string>)
    requires s !in rest
    ensures acc[s := v] + rest == acc + rest[s := v]
  {
    var lhs, rhs := acc[s := v] + rest, acc + rest[s := v];
    assert lhs.Keys == rhs.Keys;
    forall k | k in lhs ensures lhs[k] == rhs[k] {
      if k == s { assert k !in rest; } 
    }
  }

  /** The written blocks of `ss` are the block of `ss[0]`, then those of the others. */
  lemma BlocksSplit(ss: seq<string>, t: Table, comments: map<string, string>, first: bool, orders: seq<seq<string>>)
    requires ss != [] && forall x :: x in ss ==> x in t
    requires Fits(Blocks(ss, t, comments, first), orders)
    ensures forall x :: x in ss[1..] ==> x in t
    ensures var b0 := BlockOf(ss[0], t[ss[0]], comments, first);
      var bs := Blocks(ss[1..], t, comments, first && |t[ss[0]]| == 0);
      && Fits(b0, orders[..|b0|]) && Fits(bs, orders[|b0|..])
      && Render(Blocks(ss, t, comments, first), orders) == Render(b0, orders[..|b0|]) + Render(bs, orders[|b0|..])
      && Reread(Render(Blocks(ss, t, comments, first), orders))
         == Reread(Render(b0, orders[..|b0|])) + Reread(Render(bs, orders[|b0|..]))
  {
    assert ss[0] in ss;
    assert forall x :: x in ss[1..] ==> x in ss;
    var b0 := BlockOf(ss[0], t[ss[0]], comments, first);
    var bs := Blocks(ss[1..], t, comments, first && |t[ss[0]]| == 0);
    assert Blocks(ss, t, comments, first) == b0 + bs;
    RereadRenderSplit(b0, bs, orders);
  }

  /**
   * A section is one the load has not seen yet, or one the blocks skip: the blocks written for such
   * sections can be loaded after any table.
   */
  predicate Unseen(ss: seq<string>, t: Table, acc: Table)
  {
    forall x :: x in ss ==> x in t && (x !in acc || |t[x]| == 0)
  }

  /** The sections after the first of a list without repeats are none of them the first. */
  lemma TailFresh(ss: seq<string>, t: Table, acc: Table)
    requires ss != [] && Distinct(ss) && Unseen(ss, t, acc)
    ensures Distinct(ss[1..])
    ensures Unseen(ss[1..], t, acc)
    ensures ss[0] in t && |t[ss[0]]| > 0 ==> ss[0] !in acc && Unseen(ss[1..], t, acc[ss[0] := t[ss[0]]])
  {
    DistinctTail(ss);
    assert ss[0] in ss;
    forall x | x in ss[1..] ensures x in ss && x != ss[0] {
      var i :| 0 <= i < |ss[1..]| && ss[1..][i] == x;
      assert ss[i + 1] == x;
    }
  }

  /** Loading the written blocks of the sections `ss`, read back, adds each section that has keys, with its keys. */
  lemma {:induction false} LoadBlocks(ss: seq<string>, t: Table, comments: map<string, string>, first: bool,
                                      orders: seq<seq<string>>, cur: Option<string>, acc: Table)
    requires Distinct(ss) && Unseen(ss, t, acc)
    requires PlainTable(t) && InertComments(comments)
    requires Fits(Blocks(ss, t, comments, first), orders)
    ensures EveryEndsLine(Render(Blocks(ss, t, comments, first), orders))
    ensures LoadFrom(Reread(Render(Blocks(ss, t, comments, first), orders)), cur, acc) == acc + NonEmptyOf(ss, t)
  {
    if ss == [] {
      assert NonEmptyOf(ss, t) == map[];
    } else {
      var s := ss[0];
      assert s in ss;
      BlocksSplit(ss, t, comments, first, orders);
      NonEmptyOfCons(ss, t, acc);
      TailFresh(ss, t, acc);
      var b0 := BlockOf(s, t[s], comments, first);
      var o0, o1 := orders[..|b0|], orders[|b0|..];
      var bs := Blocks(ss[1..], t, comments, first && |t[s]| == 0);
      var rest := Reread(Render(bs, o1));
      if |t[s]| > 0 {
        LoadBlock(s, t[s], comments, first, o0, rest, cur, acc);
        LoadBlocks(ss[1..], t, comments, first && |t[s]| == 0, o1, Some(s), acc[s := t[s]]);
      } else {
        assert b0 == [];
        assert Reread(Render(b0, o0)) + rest == rest;
        assert Render(b0, o0) + Render(bs, o1) == Render(bs, o1);
        LoadBlocks(ss[1..], t, comments, first && |t[s]| == 0, o1, cur, acc);
      }
      EveryEndsLineAppend(Render(b0, o0), Render(bs, o1));
    }
  }

  lemma NonEmptyOfAll(ss: seq<string>, t: Table)
    requires IsEnumeration(ss, t.Keys)
    ensures map[] + NonEmptyOf(ss, t) == NonEmpty(t)
  {
    NonEmptyOfEntries(ss, t);
  }

  /**
   * A rebuilt file, written line by line and read and loaded again, holds exactly the sections that had
   * keys, each with exactly its keys and values, for every enumeration order of sections and keys.
   */
  lemma RebuildReloads(t: Table, comments: map<string, string>, ss: seq<string>, orders: seq<seq<string>>, nl: string)
    requires IsEnumeration(ss, t.Keys) && Fits(Blocks(ss, t, comments, true), orders)
    requires PlainTable(t) && InertComments(comments) && IsNewLine(nl)
    ensures Load(Some(ReadText(WriteText(Render(Blocks(ss, t, comments, true), orders), nl)))) == NonEmpty(t)
  {
    var out := Render(Blocks(ss, t, comments, true), orders);
    LoadBlocks(ss, t, comments, true, orders, None, map[]);
    WriteThenRead(out, nl);
    NonEmptyOfAll(ss, t);
  }
}
