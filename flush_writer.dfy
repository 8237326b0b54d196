/**
 * The loops of `PerformFlush` that write the new file: the copy of the original lines with the overlay
 * put in place, and the blocks for the sections that remain. Each is proved to write the rendering of
 * the piece sequence that `Patching` defines.
 */
module FlushWriter {
  import opened Wrappers
  import opened Text
  import opened IniLine
  import opened Patching

  /** A `foreach` over a dictionary's keys: each key once, in an order the model does not fix. */
  method EnumerateKeys<V>(m: map<string, V>) returns (ks: seq<string>)
    ensures IsEnumeration(ks, m.Keys)
  {
    ks := [];
    var left := m.Keys;
    while left != {}
      invariant left <= m.Keys
      invariant Distinct(ks)
      invariant forall x :: x in ks ==> x in m && x !in left
      invariant forall x :: x in m ==> x in ks || x in left
      decreases |left|
    {
      var k :| k in left;
      ks := ks + [k];
      left := left - {k};
    }
  }

  /** Writes the pending keys of a bucket, one `key=value` line each, in enumeration order. */
  method WriteBucket(bucket: map<string, string>) returns (out: seq<string>, ks: seq<string>)
    ensures IsEnumeration(ks, bucket.Keys)
    ensures out == KeyLines(ks, bucket)
  {
    ks := EnumerateKeys(bucket);
    out := [];
    var i := 0;
    while i < |ks|
      invariant 0 <= i <= |ks|
      invariant out == KeyLines(ks[..i], bucket)
    {
      out := out + [KeyLine(ks[i], bucket[ks[i]])];
      i := i + 1;
    }
    assert ks[..i] == ks;
  }

  /**
   * Leaving the current section: its pending keys, then a blank line, and the bucket is cleared
   * (`CurrentSection.Clear()` on the overlay's own bucket).
   */
  method LeaveCurrent(cur: Option<string>, rest: Table)
    returns (out: seq<string>, rest': Table, ghost ps: seq<Piece>, ghost orders: seq<seq<string>>)
    requires Tracks(ScanState(cur, rest))
    ensures LeaveSection(ScanState(cur, rest)) == Stepped(ps, ScanState(cur, rest'))
    ensures Fits(ps, orders) && out == Render(ps, orders)
  {
    out, rest', ps, orders := [], rest, [], [];
    if cur.Some? {
      if |rest[cur.value]| > 0 {
        var written, ks := WriteBucket(rest[cur.value]);
        ps, orders := [Dump(cur.value, rest[cur.value]), Literal("")], [ks, []];
        out := written + [""];
        rest' := rest[cur.value := map[]];
        RenderSingle(Literal(""));
        assert ps == [Dump(cur.value, rest[cur.value])] + [Literal("")] && orders == [ks] + [[]];
        assert Fits([Dump(cur.value, rest[cur.value])], [ks]);
        Emit([Dump(cur.value, rest[cur.value])], [ks], [Literal("")], [[]]);
      }
    }
  }

  /** Line `i` of the original file, trimmed, as the copy loop treats it. */
  method CopyLine(lines: seq<string>, i: nat, cur: Option<string>, rest: Table, comments: map<string, string>)
    returns (out: seq<string>, cur': Option<string>, rest': Table, ghost ps: seq<Piece>, ghost orders: seq<seq<string>>)
    requires i < |lines| && Tracks(ScanState(cur, rest))
    ensures Step(ScanState(cur, rest), ReadLines(lines)[i], comments) == Stepped(ps, ScanState(cur', rest'))
    ensures Fits(ps, orders) && out == Render(ps, orders)
  {
    var s := Trim(lines[i]);
    var kind := Classify(s);
    out, cur', rest', ps, orders := CopyKind(s, kind, cur, rest, comments);
  }

  /** The copy loop's treatment of a line of the given kind. */
  method CopyKind(s: string, kind: LineKind, cur: Option<string>, rest: Table, comments: map<string, string>)
    returns (out: seq<string>, cur': Option<string>, rest': Table, ghost ps: seq<Piece>, ghost orders: seq<seq<string>>)
    requires Tracks(ScanState(cur, rest))
    ensures Step(ScanState(cur, rest), Line(s, kind), comments) == Stepped(ps, ScanState(cur', rest'))
    ensures Fits(ps, orders) && out == Render(ps, orders)
  {
    out, cur', rest', ps, orders := [], cur, rest, [], [];
    var unmodified := true;
    if kind.Header? {
      out, rest', ps, orders := LeaveCurrent(cur, rest);
      cur' := if kind.name in rest' then Some(kind.name) else None;
    } else if cur.Some? {
      if kind.Pair? && kind.entry.key in rest[cur.value] {
        var c, key := cur.value, kind.entry.key;
        var value := rest[c][key];
        unmodified := false;
        rest' := rest[c := rest[c] - {key}];
        ps, orders := [Put(c, key, value)], [[]];
        out := [KeyLine(key, value)];
        RenderSingle(Put(c, key, value));
      }
    }
    if unmodified {
      RenderSingle(Literal(s));
      Emit(ps, orders, [Literal(s)], [[]]);
      ps, orders := ps + [Literal(s)], orders + [[]];
      out := out + [s];
      if kind.Header? && kind.name in comments {
        RenderSingle(Literal(comments[kind.name]));
        Emit(ps, orders, [Literal(comments[kind.name])], [[]]);
        ps, orders := ps + [Literal(comments[kind.name])], orders + [[]];
        out := out + [comments[kind.name]];
      }
    }
  }

  /**
   * The copy loop of a patch flush over the lines of the original file. `rest` is the overlay after the
   * loop has removed the keys it wrote.
   */
  method CopyLines(lines: seq<string>, overlay: Table, comments: map<string, string>)
    returns (out: seq<string>, rest: Table, ghost orders: seq<seq<string>>)
    ensures rest == Scan(ReadLines(lines), ScanState(None, overlay), comments).next.rest
    ensures Fits(Scan(ReadLines(lines), ScanState(None, overlay), comments).pieces, orders)
    ensures out == Render(Scan(ReadLines(lines), ScanState(None, overlay), comments).pieces, orders)
  {
    ghost var ls := ReadLines(lines);
    ghost var full := Scan(ls, ScanState(None, overlay), comments);
    ghost var ps: seq<Piece> := [];
    out, rest, orders := [], overlay, [];
    var cur: Option<string> := None;
    var i := 0;
    assert ls[i..] == ls;
    while i < |lines|
      invariant 0 <= i <= |lines|
      invariant Tracks(ScanState(cur, rest))
      invariant ps + Scan(ls[i..], ScanState(cur, rest), comments).pieces == full.pieces
      invariant Scan(ls[i..], ScanState(cur, rest), comments).next == full.next
      invariant Fits(ps, orders)
      invariant out == Render(ps, orders)
    {
      ghost var before := ScanState(cur, rest);
      var o;
      ghost var p, os;
      o, cur, rest, p, os := CopyLine(lines, i, cur, rest, comments);
      CopyAdvance(ls, i, before, ScanState(cur, rest), comments, full, ps, p, orders, os, out, o);
      ps, orders, out := ps + p, orders + os, out + o;
      i := i + 1;
    }
    assert ls[i..] == [];
    // the end of the file leaves the last section like a header does
    var o;
    ghost var p, os;
    o, rest, p, os := LeaveCurrent(cur, rest);
    Emit(ps, orders, p, os);
    ps, orders, out := ps + p, orders + os, out + o;
  }

  /** One section of the final loop: skipped when it has no keys, otherwise written as a block. */
  method WriteBlock(name: string, bucket: map<string, string>, comments: map<string, string>, first: bool)
    returns (out: seq<string>, ghost ps: seq<Piece>, ghost orders: seq<seq<string>>)
    ensures ps == BlockOf(name, bucket, comments, first)
    ensures Fits(ps, orders) && out == Render(ps, orders)
  {
    out, ps, orders := [], [], [];
    if |bucket| > 0 {
      if !first {
        out := out + [""];
      }
      out := out + [HeaderLine(name)];
      if name in comments {
        out := out + [comments[name]];
      }
      var written, ks := WriteBucket(bucket);
      ps := BlockOf(name, bucket, comments, first);
      orders := NoOrders(|ps| - 1) + [ks];
      WrittenBlock(name, bucket, comments, first, ks, out, written);
      out := out + written;
    }
  }

  /** The lines `WriteBlock` puts out are the rendering of the block. */
  lemma WrittenBlock(name: string, bucket: map<string, string>, comments: map<string, string>, first: bool,
                     ks: seq<string>, head: seq<string>, written: seq<string>)
    requires |bucket| > 0 && IsEnumeration(ks, bucket.Keys) && written == KeyLines(ks, bucket)
    requires head == (if first then [] else [""]) + [HeaderLine(name)] + (if name in comments then [comments[name]] else [])
    ensures var ps := BlockOf(name, bucket, comments, first);
      && |ps| >= 1
      && Fits(ps, NoOrders(|ps| - 1) + [ks])
      && head + written == Render(ps, NoOrders(|ps| - 1) + [ks])
  {
    RenderBlock(name, bucket, comments, first, ks);
  }

  /** The rendering of a block with keys. */
  lemma RenderBlock(name: string, bucket: map<string, string>, comments: map<string, string>, first: bool, ks: seq<string>)
    requires |bucket| > 0 && IsEnumeration(ks, bucket.Keys)
    ensures var ps := BlockOf(name, bucket, comments, first);
      && |ps| >= 1
      && Fits(ps, NoOrders(|ps| - 1) + [ks])
      && Render(ps, NoOrders(|ps| - 1) + [ks]) ==
           (if first then [] else [""]) + [HeaderLine(name)]
           + (if name in comments then [comments[name]] else []) + KeyLines(ks, bucket)
  {
    var head := (if first then [] else [""]) + [HeaderLine(name)] + (if name in comments then [comments[name]] else []);
    BlockOfLiterals(name, bucket, comments, first);
    RenderLiteralsThenDump(head, name, bucket, ks);
  }

  /**
   * The final loop of a flush: every section of `t` with keys, in enumeration order, as a block; only
   * the first block written has no blank line before it.
   */
  method WriteBlocks(t: Table, comments: map<string, string>)
    returns (out: seq<string>, ghost ss: seq<string>, ghost orders: seq<seq<string>>)
    ensures IsEnumeration(ss, t.Keys)
    ensures Fits(Blocks(ss, t, comments, true), orders)
    ensures out == Render(Blocks(ss, t, comments, true), orders)
  {
    var names := EnumerateKeys(t);
    ss := names;
    ghost var ps: seq<Piece> := [];
    out, orders := [], [];
    var first := true;
    var j := 0;
    assert names[j..] == names;
    while j < |names|
      invariant 0 <= j <= |names|
      invariant ps + Blocks(names[j..], t, comments, first) == Blocks(names, t, comments, true)
      invariant Fits(ps, orders)
      invariant out == Render(ps, orders)
    {
      var o;
      ghost var p, os;
      o, p, os := WriteBlock(names[j], t[names[j]], comments, first);
      BlocksAdvance(names, j, t, comments, first, ps, p, orders, os, out, o);
      out, ps, orders := out + o, ps + p, orders + os;
      first := first && |t[names[j]]| == 0;
      j := j + 1;
    }
    assert names[j..] == [];
    assert ps == Blocks(names, t, comments, true);
  }

  /** One section of the final loop keeps the loop's invariants. */
  lemma BlocksAdvance(ss: seq<string>, j: nat, t: Table, comments: map<string, string>, first: bool,
                      done: seq<Piece>, p: seq<Piece>, orders: seq<seq<string>>, os: seq<seq<string>>,
                      out: seq<string>, o: seq<string>)
    requires j < |ss| && forall x :: x in ss ==> x in t
    requires p == BlockOf(ss[j], t[ss[j]], comments, first)
    requires Fits(done, orders) && out == Render(done, orders)
    requires Fits(p, os) && o == Render(p, os)
    ensures done + Blocks(ss[j..], t, comments, first) ==
      (done + p) + Blocks(ss[j + 1..], t, comments, first && |t[ss[j]]| == 0)
    ensures Fits(done + p, orders + os) && out + o == Render(done + p, orders + os)
  {
    BlocksStep(ss, j, t, comments, first, done);
    Emit(done, orders, p, os);
  }

  lemma BlocksStep(ss: seq<string>, j: nat, t: Table, comments: map<string, string>, first: bool, done: seq<Piece>)
    requires j < |ss| && forall x :: x in ss ==> x in t
    ensures done + Blocks(ss[j..], t, comments, first) ==
      (done + BlockOf(ss[j], t[ss[j]], comments, first)) + Blocks(ss[j + 1..], t, comments, first && |t[ss[j]]| == 0)
  {
    assert ss[j..][0] == ss[j] && ss[j..][1..] == ss[j + 1..];
    ConcatAssoc(done, BlockOf(ss[j], t[ss[j]], comments, first), Blocks(ss[j + 1..], t, comments, first && |t[ss[j]]| == 0));
  }

  /** One line of the copy loop keeps the loop's invariants. */
  lemma CopyAdvance(ls: seq<Line>, i: nat, st: ScanState, st': ScanState, comments: map<string, string>,
                    full: Stepped, done: seq<Piece>, p: seq<Piece>,
                    orders: seq<seq<string>>, os: seq<seq<string>>, out: seq<string>, o: seq<string>)
    requires i < |ls| && Tracks(st) && Step(st, ls[i], comments) == Stepped(p, st')
    requires done + Scan(ls[i..], st, comments).pieces == full.pieces
    requires Scan(ls[i..], st, comments).next == full.next
    requires Fits(done, orders) && out == Render(done, orders)
    requires Fits(p, os) && o == Render(p, os)
    ensures Tracks(st')
    ensures (done + p) + Scan(ls[i + 1..], st', comments).pieces == full.pieces
    ensures Scan(ls[i + 1..], st', comments).next == full.next
    ensures Fits(done + p, orders + os) && out + o == Render(done + p, orders + os)
  {
    StepTracks(st, ls[i], comments);
    ScanStep(ls, i, st, comments, done, p, st');
    Emit(done, orders, p, os);
  }

  lemma StepTracks(st: ScanState, line: Line, comments: map<string, string>)
    requires Tracks(st)
    ensures Tracks(Step(st, line, comments).next)
  {
  }

  /** The scan from line `i` is the step at line `i` followed by the scan from line `i + 1`. */
  lemma ScanStep(ls: seq<Line>, i: nat, st: ScanState, comments: map<string, string>,
                 done: seq<Piece>, p: seq<Piece>, st': ScanState)
    requires i < |ls| && Step(st, ls[i], comments) == Stepped(p, st')
    ensures done + Scan(ls[i..], st, comments).pieces == (done + p) + Scan(ls[i + 1..], st', comments).pieces
    ensures Scan(ls[i..], st, comments).next == Scan(ls[i + 1..], st', comments).next
  {
    ScanAt(ls, i, st, comments);
    ConcatAssoc(done, p, Scan(ls[i + 1..], st', comments).pieces);
  }

  lemma RenderSingle(p: Piece)
    requires !p.Dump?
    ensures Fits([p], [[]]) && Render([p], [[]]) == RenderOne(p, [])
  {
  }

  /** Appending pieces, with fitting orders, appends their rendering. */
  lemma Emit(ps: seq<Piece>, orders: seq<seq<string>>, more: seq<Piece>, mo: seq<seq<string>>)
    requires Fits(ps, orders) && Fits(more, mo)
    ensures Fits(ps + more, orders + mo)
    ensures Render(ps + more, orders + mo) == Render(ps, orders) + Render(more, mo)
  {
    FitsAppend(ps, orders, more, mo);
    RenderAppend(ps, orders, more, mo);
  }
}
