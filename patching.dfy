/**
 * The flush engine. A flush writes a sequence of pieces: literal lines, key lines put in place of an
 * original key line (`Put`), and the pending keys of a section bucket written one per line (`Dump`),
 * in whatever order the dictionary enumerates them. The piece sequence of a patch flush is a function of
 * the original lines and the overlay (`Scan`, then `Blocks`); only the order of the keys inside a `Dump`,
 * and of the sections in `Blocks`, is left to the enumeration.
 */
module Patching {
  import opened Wrappers
  import opened Text
  import opened IniLine
  import opened Tables

  // ---------------------------------------------------------------- pieces and their rendering

  datatype Piece =
    | Literal(line: string)
    | Put(section: string, key: string, value: string)
    | Dump(section: string, bucket: map<string, string>)

  predicate Distinct(ks: seq<string>)
  {
    forall i, j :: 0 <= i < j < |ks| ==> ks[i] != ks[j]
  }

  /** `ks` lists the elements of `s`, each once, in some order: one enumeration of a dictionary's keys. */
  predicate IsEnumeration(ks: seq<string>, s: set<string>)
  {
    && Distinct(ks)
    && (forall x :: x in ks ==> x in s)
    && (forall x :: x in s ==> x in ks)
  }

  /** `ks` is a usable key order for piece `p`: an enumeration of its bucket for a `Dump`, empty otherwise. */
  predicate FitsOne(p: Piece, ks: seq<string>)
  {
    if p.Dump? then IsEnumeration(ks, p.bucket.Keys) else ks == []
  }

  predicate Fits(ps: seq<Piece>, orders: seq<seq<string>>)
  {
    |ps| == |orders| && forall i :: 0 <= i < |ps| ==> FitsOne(ps[i], orders[i])
  }

  /** The `key=value` lines of a bucket, in the order `ks` (an order that fits lists only keys of the bucket). */
  function KeyLines(ks: seq<string>, bucket: map<string, string>): (r: seq<string>)
    ensures |r| == |ks|
  {
    seq(|ks|, i requires 0 <= i < |ks| => KeyLine(ks[i], if ks[i] in bucket then bucket[ks[i]] else ""))
  }

  function RenderOne(p: Piece, ks: seq<string>): seq<string>
  {
    match p
    case Literal(t) => [t]
    case Put(_, k, v) => [KeyLine(k, v)]
    case Dump(_, b) => KeyLines(ks, b)
  }

  /** The lines written for the pieces `ps`, each `Dump` in the key order given for it. */
  function Render(ps: seq<Piece>, orders: seq<seq<string>>): seq<string>
    requires |ps| == |orders|
  {
    if ps == [] then [] else RenderOne(ps[0], orders[0]) + Render(ps[1..], orders[1..])
  }

  lemma {:induction false} RenderAppend(a: seq<Piece>, oa: seq<seq<string>>, b: seq<Piece>, ob: seq<seq<string>>)
    requires |a| == |oa| && |b| == |ob|
    ensures Render(a + b, oa + ob) == Render(a, oa) + Render(b, ob)
  {
    if a == [] {
      assert a + b == b && oa + ob == ob;
    } else {
      assert (a + b)[1..] == a[1..] + b;
      assert (oa + ob)[1..] == oa[1..] + ob;
      RenderAppend(a[1..], oa[1..], b, ob);
    }
  }

  lemma FitsAppend(a: seq<Piece>, oa: seq<seq<string>>, b: seq<Piece>, ob: seq<seq<string>>)
    requires Fits(a, oa) && Fits(b, ob)
    ensures Fits(a + b, oa + ob)
  {
    forall i | 0 <= i < |a + b| ensures FitsOne((a + b)[i], (oa + ob)[i]) {
      if i < |a| {
        assert (a + b)[i] == a[i] && (oa + ob)[i] == oa[i];
      } else {
        assert (a + b)[i] == b[i - |a|] && (oa + ob)[i] == ob[i - |a|];
      }
    }
  }

  /** Literal pieces render as their lines. */
  function Literals(ts: seq<string>): (ps: seq<Piece>)
    ensures |ps| == |ts|
  {
    seq(|ts|, i requires 0 <= i < |ts| => Literal(ts[i]))
  }

  function NoOrders(n: nat): (os: seq<seq<string>>)
    ensures |os| == n
  {
    seq(n, i => [])
  }

  lemma {:induction false} RenderLiterals(ts: seq<string>)
    ensures Render(Literals(ts), NoOrders(|ts|)) == ts
  {
    if ts != [] {
      RenderLiterals(ts[1..]);
      assert Literals(ts)[1..] == Literals(ts[1..]);
      assert NoOrders(|ts|)[1..] == NoOrders(|ts| - 1);
    }
  }

  // ---------------------------------------------------------------- what is written for each overlay entry

  function EmittedOne(p: Piece, s: string, k: string): seq<string>
  {
    match p
    case Put(s', k', v) => if s' == s && k' == k then [v] else []
    case Dump(s', b) => if s' == s && k in b then [b[k]] else []
    case Literal(_) => []
  }

  /** The values the pieces write for key `k` of section `s` from the overlay, in order. */
  function Emitted(ps: seq<Piece>, s: string, k: string): seq<string>
  {
    if ps == [] then [] else EmittedOne(ps[0], s, k) + Emitted(ps[1..], s, k)
  }

  lemma {:induction false} EmittedAppend(a: seq<Piece>, b: seq<Piece>, s: string, k: string)
    ensures Emitted(a + b, s, k) == Emitted(a, s, k) + Emitted(b, s, k)
  {
    if a == [] {
      assert a + b == b;
    } else {
      assert a == [a[0]] + a[1..];
      assert a + b == [a[0]] + (a[1..] + b);
      EmittedCons(a[0], a[1..] + b, s, k);
      EmittedCons(a[0], a[1..], s, k);
      EmittedAppend(a[1..], b, s, k);
      ConcatAssoc(EmittedOne(a[0], s, k), Emitted(a[1..], s, k), Emitted(b, s, k));
    }
  }

  lemma EmittedCons(p: Piece, c: seq<Piece>, s: string, k: string)
    ensures Emitted([p] + c, s, k) == EmittedOne(p, s, k) + Emitted(c, s, k)
  {
    assert ([p] + c)[0] == p && ([p] + c)[1..] == c;
  }

  /** The value still waiting to be written for key `k` of section `s`, if any. */
  function Pending(t: Table, s: string, k: string): seq<string>
  {
    if s in t && k in t[s] then [t[s][k]] else []
  }

  // ---------------------------------------------------------------- the scan of the original file

  /** A line of the original file as the patch flush sees it: trimmed, and classified. */
  datatype Line = Line(text: string, kind: LineKind)

  function ReadLines(lines: seq<string>): (ls: seq<Line>)
    ensures |ls| == |lines|
    ensures forall i :: 0 <= i < |lines| ==> ls[i] == Line(Trim(lines[i]), Classify(Trim(lines[i])))
  {
    seq(|lines|, i requires 0 <= i < |lines| => Line(Trim(lines[i]), Classify(Trim(lines[i]))))
  }

  /** The section being copied (if it has an overlay bucket) and the overlay as consumed so far. */
  datatype ScanState = ScanState(cur: Option<string>, rest: Table)

  predicate Tracks(st: ScanState)
  {
    st.cur.Some? ==> st.cur.value in st.rest
  }

  datatype Stepped = Stepped(pieces: seq<Piece>, next: ScanState)

  /**
   * Leaving the current section (at the next header or at the end of the file): the keys left in its
   * bucket are written, then a blank line, and the bucket is emptied.
   */
  function LeaveSection(st: ScanState): Stepped
  {
    if st.cur.Some? && st.cur.value in st.rest && |st.rest[st.cur.value]| > 0 then
      var c := st.cur.value;
      Stepped([Dump(c, st.rest[c]), Literal("")], ScanState(st.cur, st.rest[c := map[]]))
    else Stepped([], st)
  }

  /**
   * One line of the original file. A header leaves the current section, is copied, is followed by the
   * section's comment if one is set, and makes its bucket current. A key line whose key is in the
   * current bucket is replaced by `key=value` from the bucket, and the key leaves the bucket. Every
   * other line is copied as trimmed.
   */
  function Step(st: ScanState, line: Line, comments: map<string, string>): Stepped
  {
    match line.kind
    case Header(name) =>
      var left := LeaveSection(st);
      var rest := left.next.rest;
      var comment := if name in comments then [Literal(comments[name])] else [];
      Stepped(left.pieces + [Literal(line.text)] + comment,
              ScanState(if name in rest then Some(name) else None, rest))
    case Pair(e) =>
      if st.cur.Some? && st.cur.value in st.rest && e.key in st.rest[st.cur.value] then
        var c := st.cur.value;
        Stepped([Put(c, e.key, st.rest[c][e.key])], ScanState(st.cur, st.rest[c := st.rest[c] - {e.key}]))
      else Stepped([Literal(line.text)], st)
    case Other => Stepped([Literal(line.text)], st)
  }

  /** The scan of the lines `ls` from state `st`, ending with leaving the last section. */
  function Scan(ls: seq<Line>, st: ScanState, comments: map<string, string>): Stepped
    decreases |ls|
  {
    if ls == [] then LeaveSection(st)
    else
      var a := Step(st, ls[0], comments);
      var b := Scan(ls[1..], a.next, comments);
      Stepped(a.pieces + b.pieces, b.next)
  }

  lemma ScanAt(ls: seq<Line>, i: nat, st: ScanState, comments: map<string, string>)
    requires i < |ls|
    ensures Scan(ls[i..], st, comments) ==
      var a := Step(st, ls[i], comments);
      var b := Scan(ls[i + 1..], a.next, comments);
      Stepped(a.pieces + b.pieces, b.next)
  {
    assert ls[i..][0] == ls[i];
    assert ls[i..][1..] == ls[i + 1..];
  }

  /** The names of the header lines. */
  function Seen(ls: seq<Line>): set<string>
  {
    if ls == [] then {} else (if ls[0].kind.Header? then {ls[0].kind.name} else {}) + Seen(ls[1..])
  }

  // ---------------------------------------------------------------- blocks for the remaining sections

  /**
   * The block for section `s` with keys `bucket`: a blank line unless it is the first block, the header,
   * the comment if one is set, and the key lines. A section without keys gets no block.
   */
  function BlockOf(s: string, bucket: map<string, string>, comments: map<string, string>, first: bool): seq<Piece>
  {
    if |bucket| > 0 then
      var sep := if first then [] else [Literal("")];
      var comment := if s in comments then [Literal(comments[s])] else [];
      sep + [Literal(HeaderLine(s))] + comment + [Dump(s, bucket)]
    else []
  }

  /** The pieces of a block with keys: literal lines, then the dump of its bucket. */
  lemma BlockOfLiterals(s: string, bucket: map<string, string>, comments: map<string, string>, first: bool)
    requires |bucket| > 0
    ensures BlockOf(s, bucket, comments, first)
         == Literals((if first then [] else [""]) + [HeaderLine(s)] + (if s in comments then [comments[s]] else []))
          + [Dump(s, bucket)]
  {
    var head := (if first then [] else [""]) + [HeaderLine(s)] + (if s in comments then [comments[s]] else []);
    var sep: seq<Piece> := if first then [] else [Literal("")];
    var comment: seq<Piece> := if s in comments then [Literal(comments[s])] else [];
    assert Literals(head) == sep + [Literal(HeaderLine(s))] + comment;
  }

  /** Literal lines and a dump, with the orders that fit them, render as the lines and the dumped keys. */
  lemma RenderLiteralsThenDump(head: seq<string>, s: string, bucket: map<string, string>, ks: seq<string>)
    requires IsEnumeration(ks, bucket.Keys)
    ensures Fits(Literals(head) + [Dump(s, bucket)], NoOrders(|head|) + [ks])
    ensures Render(Literals(head) + [Dump(s, bucket)], NoOrders(|head|) + [ks]) == head + KeyLines(ks, bucket)
  {
    RenderLiterals(head);
    assert Fits(Literals(head), NoOrders(|head|));
    assert Fits([Dump(s, bucket)], [ks]);
    assert Render([Dump(s, bucket)], [ks]) == KeyLines(ks, bucket);
    FitsAppend(Literals(head), NoOrders(|head|), [Dump(s, bucket)], [ks]);
    RenderAppend(Literals(head), NoOrders(|head|), [Dump(s, bucket)], [ks]);
  }

  /** The blocks for the sections of `t`, in the order `ss`. */
  function Blocks(ss: seq<string>, t: Table, comments: map<string, string>, first: bool): seq<Piece>
    requires forall x :: x in ss ==> x in t
  {
    if ss == [] then []
    else
      BlockOf(ss[0], t[ss[0]], comments, first)
      + Blocks(ss[1..], t, comments, first && |t[ss[0]]| == 0)
  }

  /** The scan of the original file, when there is one; a missing file leaves the overlay untouched. */
  function Scanned(file: Option<seq<string>>, overlay: Table, comments: map<string, string>): Stepped
  {
    match file
    case None => Stepped([], ScanState(None, overlay))
    case Some(lines) => Scan(ReadLines(lines), ScanState(None, overlay), comments)
  }

  // ---------------------------------------------------------------- every overlay entry is written once

  lemma {:induction false} LiteralsEmitNothing(ps: seq<Piece>, s: string, k: string)
    requires forall i :: 0 <= i < |ps| ==> ps[i].Literal?
    ensures Emitted(ps, s, k) == []
  {
    if ps != [] {
      assert ps[0].Literal?;
      LiteralsEmitNothing(ps[1..], s, k);
    }
  }

  /** Leaving a section writes exactly the values that leave its bucket, and keeps the set of sections. */
  lemma LeaveConserves(st: ScanState, s: string, k: string)
    requires Tracks(st)
    ensures Tracks(LeaveSection(st).next) && LeaveSection(st).next.rest.Keys == st.rest.Keys
    ensures LeaveSection(st).next.cur == st.cur
    ensures Emitted(LeaveSection(st).pieces, s, k) + Pending(LeaveSection(st).next.rest, s, k) == Pending(st.rest, s, k)
  {
    var l := LeaveSection(st);
    if l.pieces != [] {
      assert l.pieces[1..] == [Literal("")];
      LiteralsEmitNothing(l.pieces[1..], s, k);
    }
  }

  lemma StepConserves(st: ScanState, line: Line, comments: map<string, string>, s: string, k: string)
    requires Tracks(st)
    ensures Tracks(Step(st, line, comments).next)
    ensures Step(st, line, comments).next.rest.Keys == st.rest.Keys
    ensures Emitted(Step(st, line, comments).pieces, s, k) + Pending(Step(st, line, comments).next.rest, s, k)
      == Pending(st.rest, s, k)
  {
    if line.kind.Header? {
      HeaderConserves(st, line, comments, s, k);
    } else {
      var r := Step(st, line, comments);
      if line.kind.Pair? && st.cur.Some? && st.cur.value in st.rest && line.kind.entry.key in st.rest[st.cur.value] {
        assert r.pieces[1..] == [];
      } else {
        assert r.pieces == [Literal(line.text)];
        LiteralsEmitNothing(r.pieces, s, k);
      }
    }
  }

  lemma HeaderConserves(st: ScanState, line: Line, comments: map<string, string>, s: string, k: string)
    requires Tracks(st) && line.kind.Header?
    ensures Tracks(Step(st, line, comments).next)
    ensures Step(st, line, comments).next.rest.Keys == st.rest.Keys
    ensures Emitted(Step(st, line, comments).pieces, s, k) + Pending(Step(st, line, comments).next.rest, s, k)
      == Pending(st.rest, s, k)
  {
    var r := Step(st, line, comments);
    var name := line.kind.name;
    var left := LeaveSection(st);
    LeaveConserves(st, s, k);
    var tail := [Literal(line.text)] + (if name in comments then [Literal(comments[name])] else []);
    assert r.pieces == left.pieces + tail;
    assert r.next.rest == left.next.rest;
    LiteralsEmitNothing(tail, s, k);
    EmittedAppend(left.pieces, tail, s, k);
  }

  /** The scan writes each pending value at most once: what it writes plus what it leaves is the overlay. */
  lemma {:induction false} ScanConserves(ls: seq<Line>, st: ScanState, comments: map<string, string>, s: string, k: string)
    requires Tracks(st)
    ensures Scan(ls, st, comments).next.rest.Keys == st.rest.Keys
    ensures Emitted(Scan(ls, st, comments).pieces, s, k) + Pending(Scan(ls, st, comments).next.rest, s, k)
      == Pending(st.rest, s, k)
    decreases |ls|
  {
    if ls == [] {
      LeaveConserves(st, s, k);
    } else {
      var a := Step(st, ls[0], comments);
      StepConserves(st, ls[0], comments, s, k);
      ScanConserves(ls[1..], a.next, comments, s, k);
      var b := Scan(ls[1..], a.next, comments);
      EmittedAppend(a.pieces, b.pieces, s, k);
      ConcatAssoc(Emitted(a.pieces, s, k), Emitted(b.pieces, s, k), Pending(b.next.rest, s, k));
    }
  }

  lemma DistinctTail(ss: seq<string>)
    requires ss != [] && Distinct(ss)
    ensures Distinct(ss[1..]) && ss[0] !in ss[1..]
  {
    forall i, j | 0 <= i < j < |ss[1..]| ensures ss[1..][i] != ss[1..][j] {
      assert ss[1..][i] == ss[i + 1] && ss[1..][j] == ss[j + 1];
    }
    forall i | 0 <= i < |ss[1..]| ensures ss[1..][i] != ss[0] {
      assert ss[1..][i] == ss[i + 1];
    }
  }

  /** One block writes the values of its bucket; the separator, header and comment write none. */
  lemma BlockEmit(x: string, bucket: map<string, string>, comments: map<string, string>, first: bool, s: string, k: string)
    ensures Emitted(BlockOf(x, bucket, comments, first), s, k) == Pending(map[x := bucket], s, k)
  {
    if |bucket| > 0 {
      var sep := if first then [] else [Literal("")];
      var comment := if x in comments then [Literal(comments[x])] else [];
      var head := sep + [Literal(HeaderLine(x))] + comment;
      LiteralsEmitNothing(head, s, k);
      EmittedAppend(head, [Dump(x, bucket)], s, k);
    } else {
      assert bucket.Keys == {};
    }
  }

  /** The blocks write the pending value of every listed section and nothing else. */
  lemma {:induction false} BlocksEmit(ss: seq<string>, t: Table, comments: map<string, string>, first: bool, s: string, k: string)
    requires Distinct(ss) && forall x :: x in ss ==> x in t
    ensures Emitted(Blocks(ss, t, comments, first), s, k) == if s in ss then Pending(t, s, k) else []
  {
    if ss != [] {
      var x := ss[0];
      DistinctTail(ss);
      assert s in ss <==> s == x || s in ss[1..];
      BlocksEmit(ss[1..], t, comments, first && |t[x]| == 0, s, k);
      BlockEmit(x, t[x], comments, first, s, k);
      EmittedAppend(BlockOf(x, t[x], comments, first), Blocks(ss[1..], t, comments, first && |t[x]| == 0), s, k);
    }
  }

  /**
   * A patch flush writes every overlay entry exactly once, with its overlay value: in place of the
   * original key line, at the end of its section, or in a new block after the file.
   */
  lemma PatchEmitsEachOnce(file: Option<seq<string>>, overlay: Table, comments: map<string, string>,
                           ss: seq<string>, s: string, k: string)
    requires IsEnumeration(ss, Scanned(file, overlay, comments).next.rest.Keys)
    ensures Emitted(Scanned(file, overlay, comments).pieces
                    + Blocks(ss, Scanned(file, overlay, comments).next.rest, comments, true), s, k)
      == Pending(overlay, s, k)
  {
    var sc := Scanned(file, overlay, comments);
    var rest := sc.next.rest;
    BlocksEmit(ss, rest, comments, true, s, k);
    EmittedAppend(sc.pieces, Blocks(ss, rest, comments, true), s, k);
    if file.Some? {
      ScanConserves(ReadLines(file.value), ScanState(None, overlay), comments, s, k);
    }
    if s !in ss {
      assert Pending(rest, s, k) == [];
    }
  }

  /** A rebuild flush writes every entry of the table exactly once. */
  lemma RebuildEmitsEachOnce(t: Table, comments: map<string, string>, ss: seq<string>, s: string, k: string)
    requires IsEnumeration(ss, t.Keys)
    ensures Emitted(Blocks(ss, t, comments, true), s, k) == Pending(t, s, k)
  {
    BlocksEmit(ss, t, comments, true, s, k);
  }

  // ---------------------------------------------------------------- what the scan leaves for the blocks

  lemma StepRest(st: ScanState, line: Line, comments: map<string, string>, s: string)
    requires Tracks(st) && s in st.rest
    ensures var a := Step(st, line, comments);
      && (a.next.cur == Some(s) ==> line.kind == Header(s) || st.cur == Some(s))
      && (line.kind != Header(s) && st.cur != Some(s) ==> a.next.rest[s] == st.rest[s])
      && ((line.kind == Header(s) || st.cur == Some(s)) && a.next.cur != Some(s) ==> a.next.rest[s] == map[])
  {
    var left := LeaveSection(st);
    if st.cur == Some(s) && |st.rest[s]| == 0 {
      assert st.rest[s].Keys == {};
    }
    LeaveConserves(st, s, "");
  }

  /**
   * After the scan, the bucket of every section that has a header in the file (or is current when the
   * scan starts) is empty; every other bucket is as it was.
   */
  lemma {:induction false} ScanRest(ls: seq<Line>, st: ScanState, comments: map<string, string>, s: string)
    requires Tracks(st) && s in st.rest
    ensures s in Scan(ls, st, comments).next.rest
    ensures Scan(ls, st, comments).next.rest[s] == if s in Seen(ls) || st.cur == Some(s) then map[] else st.rest[s]
    decreases |ls|
  {
    ScanConserves(ls, st, comments, s, "");
    if ls == [] {
      if st.cur == Some(s) && |st.rest[s]| == 0 {
        assert st.rest[s].Keys == {};
      }
    } else {
      var a := Step(st, ls[0], comments);
      StepConserves(st, ls[0], comments, s, "");
      StepRest(st, ls[0], comments, s);
      ScanRest(ls[1..], a.next, comments, s);
      assert Seen(ls) == (if ls[0].kind.Header? then {ls[0].kind.name} else {}) + Seen(ls[1..]);
    }
  }

  lemma {:induction false} BlocksOfEmpty(ss: seq<string>, t: Table, comments: map<string, string>, first: bool)
    requires forall x :: x in ss ==> x in t && t[x] == map[]
    ensures Blocks(ss, t, comments, first) == []
  {
    if ss != [] {
      assert ss[0] in ss;
      assert forall x :: x in ss[1..] ==> x in ss;
      BlocksOfEmpty(ss[1..], t, comments, first);
      assert |t[ss[0]]| == 0;
    }
  }

  /** When every overlay section has a header in the file, a patch flush appends no new block. */
  lemma PatchAppendsNothing(lines: seq<string>, overlay: Table, comments: map<string, string>, ss: seq<string>)
    requires forall x :: x in overlay ==> x in Seen(ReadLines(lines))
    requires forall x :: x in ss ==> x in Scanned(Some(lines), overlay, comments).next.rest
    ensures Blocks(ss, Scanned(Some(lines), overlay, comments).next.rest, comments, true) == []
  {
    var st := ScanState(None, overlay);
    var rest := Scanned(Some(lines), overlay, comments).next.rest;
    ScanConserves(ReadLines(lines), st, comments, "", "");
    forall x | x in ss ensures x in rest && rest[x] == map[] {
      ScanRest(ReadLines(lines), st, comments, x);
    }
    BlocksOfEmpty(ss, rest, comments, true);
  }

  /** The trimmed text of each line. */
  function Texts(ls: seq<Line>): (ts: seq<string>)
    ensures |ts| == |ls|
    ensures forall i :: 0 <= i < |ls| ==> ts[i] == ls[i].text
  {
    seq(|ls|, i requires 0 <= i < |ls| => ls[i].text)
  }

  /**
   * With no overlay bucket and no comment for any section of the file, the scan copies every line as
   * trimmed and consumes nothing.
   */
  lemma {:induction false} ScanUntouched(ls: seq<Line>, overlay: Table, comments: map<string, string>)
    requires forall x :: x in Seen(ls) ==> x !in overlay && x !in comments
    ensures Scan(ls, ScanState(None, overlay), comments) == Stepped(Literals(Texts(ls)), ScanState(None, overlay))
  {
    if ls != [] {
      var st := ScanState(None, overlay);
      assert Seen(ls) == (if ls[0].kind.Header? then {ls[0].kind.name} else {}) + Seen(ls[1..]);
      UntouchedStep(ls[0], overlay, comments);
      ScanUntouched(ls[1..], overlay, comments);
      assert Scan(ls, st, comments) == Stepped([Literal(ls[0].text)] + Literals(Texts(ls[1..])), st);
      LiteralsOfTexts(ls);
    }
  }

  /** A line of a section the flush does not touch is copied as it is. */
  lemma UntouchedStep(line: Line, overlay: Table, comments: map<string, string>)
    requires line.kind.Header? ==> line.kind.name !in overlay && line.kind.name !in comments
    ensures Step(ScanState(None, overlay), line, comments) == Stepped([Literal(line.text)], ScanState(None, overlay))
  {
  }

  lemma LiteralsOfTexts(ls: seq<Line>)
    requires ls != []
    ensures Literals(Texts(ls)) == [Literal(ls[0].text)] + Literals(Texts(ls[1..]))
  {
  }

  /**
   * So a patch flush that touches no section of the file writes the file back, each line trimmed, and
   * then the new blocks.
   */
  lemma PatchKeepsUntouchedFile(lines: seq<string>, overlay: Table, comments: map<string, string>)
    requires forall x :: x in Seen(ReadLines(lines)) ==> x !in overlay && x !in comments
    ensures Scanned(Some(lines), overlay, comments).next.rest == overlay
    ensures var ps := Scanned(Some(lines), overlay, comments).pieces;
      Render(ps, NoOrders(|ps|)) == Texts(ReadLines(lines))
  {
    var ls := ReadLines(lines);
    ScanUntouched(ls, overlay, comments);
    RenderLiterals(Texts(ls));
  }
}
