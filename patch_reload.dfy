/**
 * What a patch flush writes reads back as the file it patched with the overlay put over it: every
 * overlay entry loads with its overlay value, every other entry of the file loads as before, and the
 * overlay's sections the file lacks are added when they have keys.
 *
 * The proof runs the load pass over the original lines and the load pass over the written lines side
 * by side, one step of the scan at a time (`Sim`), and compares them when the scan is done (`Final`).
 */
module PatchReload {
  import opened Wrappers
  import opened Text
  import opened IniLine
  import opened Tables
  import opened Loading
  import opened Patching
  import opened CommentFormat
  import opened LineBreaks
  import opened Reload

  // ---------------------------------------------------------------- the lines of the original file

  /** A line as the scan gets it from `ReadLine`: no line break, and classified as its text is. */
  predicate IsFileLine(l: Line)
  {
    NoBreak(l.text) && l.kind == KindOf(l.text)
  }

  function LineKinds(ls: seq<Line>): (ks: seq<LineKind>)
    ensures |ks| == |ls| && forall i :: 0 <= i < |ls| ==> ks[i] == ls[i].kind
  {
    seq(|ls|, i requires 0 <= i < |ls| => ls[i].kind)
  }

  lemma TrimNoBreak(l: string)
    requires NoBreak(l)
    ensures NoBreak(Trim(l))
  {
    var t := TrimStart(l);
    var u := TrimEnd(t);
    assert Trim(l) == u;
    forall j | 0 <= j < |u| ensures !IsBreak(u[j]) {
      assert u[j] == t[j] == l[|l| - |t| + j];
    }
  }

  /** The trimmed lines of a file without breaks are file lines; the scan and the load see the same kinds. */
  lemma ReadFile(lines: seq<string>)
    requires forall i :: 0 <= i < |lines| ==> NoBreak(lines[i])
    ensures forall i :: 0 <= i < |ReadLines(lines)| ==> IsFileLine(ReadLines(lines)[i])
    ensures LineKinds(ReadLines(lines)) == KindsOf(lines)
  {
    var ls := ReadLines(lines);
    forall i | 0 <= i < |lines| ensures IsFileLine(ls[i]) && ls[i].kind == KindsOf(lines)[i] {
      TrimNoBreak(lines[i]);
      TrimOfTrimmed(Trim(lines[i]));
      KindsAt(lines, i);
    }
  }

  // ---------------------------------------------------------------- the two load passes side by side

  /**
   * Outside the sections both passes have seen, the passes and the scan agree: the same sections are
   * loaded, a section the overlay lacks loads as in the file, and the bucket of a section the file
   * lacks is still whole.
   */
  ghost predicate Base(fa: Table, oa: Table, rest: Table, ov: Table)
  {
    && oa.Keys == fa.Keys && rest.Keys == ov.Keys
    && (forall x :: x in ov && x !in fa ==> rest[x] == ov[x])
    && (forall x :: x in fa && x !in ov ==> oa[x] == fa[x])
  }

  /** Section `x` is behind the scan: its bucket is written, and it loads as the file's with the bucket over it. */
  ghost predicate Done(fa: Table, oa: Table, rest: Table, ov: Table, x: string)
  {
    && x in fa && x in oa && x in ov && x in rest
    && rest[x] == map[] && oa[x] == fa[x] + ov[x]
  }

  /**
   * Section `x` is being copied: what the written lines loaded so far, with what is left of the bucket
   * over it, is the file's section with the bucket over it; the keys loaded are the file's, and none of
   * the keys left is one of them.
   */
  ghost predicate Open(fa: Table, oa: Table, rest: Table, ov: Table, x: string)
  {
    && x in fa && x in oa && x in ov && x in rest
    && oa[x] + rest[x] == fa[x] + ov[x]
    && oa[x].Keys == fa[x].Keys && rest[x].Keys !! fa[x].Keys
  }

  /** The passes between two sections: every section of the file with a bucket is done. */
  ghost predicate Final(fa: Table, oa: Table, rest: Table, ov: Table)
  {
    Base(fa, oa, rest, ov) && forall x :: x in fa && x in ov ==> Done(fa, oa, rest, ov, x)
  }

  /**
   * The passes in the middle of the scan, `f` over the original lines and `o` over the written ones:
   * they are in the same section, which the scan tracks when it has a bucket; every other section
   * with a bucket that the file has shown is done.
   */
  ghost predicate Sim(f: LoadState, o: LoadState, st: ScanState, ov: Table)
  {
    && f.cur == o.cur && (f.cur.Some? ==> f.cur.value in f.acc)
    && Tracks(st) && Base(f.acc, o.acc, st.rest, ov)
    && (f.cur.Some? ==> st.cur == (if f.cur.value in ov then f.cur else None))
    && (f.cur.None? && st.cur.Some? ==> st.rest[st.cur.value] == map[])
    && (forall x :: x in f.acc && x in ov && Some(x) != f.cur ==> Done(f.acc, o.acc, st.rest, ov, x))
    && (f.cur.Some? && f.cur.value in ov ==> Open(f.acc, o.acc, st.rest, ov, f.cur.value))
  }

  lemma SimStart(ov: Table)
    ensures Sim(LoadState(None, map[]), LoadState(None, map[]), ScanState(None, ov), ov)
  {
  }

  /** What is left of the current bucket is part of the overlay bucket. */
  lemma OpenRest(fa: Table, oa: Table, rest: Table, ov: Table, x: string)
    requires Open(fa, oa, rest, ov, x)
    ensures forall k :: k in rest[x] ==> k in ov[x] && rest[x][k] == ov[x][k]
  {
    forall k | k in rest[x] ensures k in ov[x] && rest[x][k] == ov[x][k] {
      assert (oa[x] + rest[x])[k] == rest[x][k];
      assert k in fa[x] + ov[x] && (fa[x] + ov[x])[k] == rest[x][k];
      assert k !in fa[x];
    }
  }

  lemma LoadRunOne(k: LineKind, st: LoadState)
    ensures LoadRun([k], st) == LoadOne(st, k)
  {
    assert [k][1..] == [];
  }

  // ---------------------------------------------------------------- map facts

  lemma PutMoves(a: map<string, string>, b: map<string, string>, k: string)
    requires k in b
    ensures a[k := b[k]] + (b - {k}) == a + b
  {
  }

  lemma Overridden(a: map<string, string>, b: map<string, string>, k: string, v: string)
    requires k in b
    ensures a[k := v] + b == a + b
  {
  }

  lemma AddOutside(a: map<string, string>, b: map<string, string>, k: string, v: string)
    requires k !in b
    ensures a[k := v] + b == (a + b)[k := v]
  {
  }

  // ---------------------------------------------------------------- one step of the scan

  /** A line copied as it is: both passes take the same line, and the scan keeps its state. */
  lemma CopySim(f: LoadState, o: LoadState, st: ScanState, ov: Table, k: LineKind)
    requires Sim(f, o, st, ov) && !k.Header?
    requires k.Pair? && st.cur.Some? ==> k.entry.key !in st.rest[st.cur.value]
    ensures Sim(LoadOne(f, k), LoadOne(o, k), st, ov)
  {
    if k.Pair? && f.cur.Some? {
      var c, e := f.cur.value, k.entry;
      if e.key !in f.acc[c] {
        assert e.key !in o.acc[c];
        var bf, bo := f.acc[c][e.key := e.value], o.acc[c][e.key := e.value];
        assert LoadOne(f, k) == LoadState(f.cur, f.acc[c := bf]);
        assert LoadOne(o, k) == LoadState(o.cur, o.acc[c := bo]);
        if c in ov {
          CopyOpen(f.acc, o.acc, st.rest, ov, c, e);
        }
        OthersKept(f.acc, o.acc, st.rest, ov, c, bf, bo);
      } else {
        assert e.key in o.acc[c];
      }
    }
  }

  /** A file entry the bucket does not replace: both passes add it to the open section. */
  lemma CopyOpen(fa: Table, oa: Table, rest: Table, ov: Table, c: string, e: Entry)
    requires Open(fa, oa, rest, ov, c) && e.key !in rest[c] && e.key !in fa[c]
    ensures Open(fa[c := fa[c][e.key := e.value]], oa[c := oa[c][e.key := e.value]], rest, ov, c)
  {
    assert e.key !in oa[c] + rest[c];
    assert e.key !in fa[c] + ov[c];
    AddOutside(oa[c], rest[c], e.key, e.value);
    AddOutside(fa[c], ov[c], e.key, e.value);
  }

  /** Changing section `c` in both passes, the same way when it has no bucket, keeps every other section. */
  lemma OthersKept(fa: Table, oa: Table, rest: Table, ov: Table, c: string, bf: map<string, string>, bo: map<string, string>)
    requires Base(fa, oa, rest, ov) && (c !in ov ==> bf == bo)
    requires forall x :: x in fa && x in ov && x != c ==> Done(fa, oa, rest, ov, x)
    ensures Base(fa[c := bf], oa[c := bo], rest, ov)
    ensures forall x :: x in fa[c := bf] && x in ov && x != c ==> Done(fa[c := bf], oa[c := bo], rest, ov, x)
  {
    forall x | x in fa[c := bf] && x in ov && x != c ensures Done(fa[c := bf], oa[c := bo], rest, ov, x) {
      assert Done(fa, oa, rest, ov, x);
    }
  }

  /**
   * A key line replaced from the bucket: the original pass takes the file's entry, the other pass the
   * bucket's, and the key leaves the bucket.
   */
  lemma PutSim(f: LoadState, o: LoadState, st: ScanState, ov: Table, e: Entry)
    requires Sim(f, o, st, ov) && PlainTable(ov)
    requires st.cur.Some? && st.cur.value in st.rest && e.key in st.rest[st.cur.value]
    ensures IsPlainEntry(e.key, st.rest[st.cur.value][e.key])
    ensures var c := st.cur.value;
      Sim(LoadOne(f, Pair(e)), LoadOne(o, Pair(Entry(e.key, st.rest[c][e.key]))),
          ScanState(st.cur, st.rest[c := st.rest[c] - {e.key}]), ov)
  {
    var c, k := st.cur.value, e.key;
    var v := st.rest[c][k];
    assert st.rest[c] != map[];
    assert f.cur == Some(c) && c in ov;
    OpenRest(f.acc, o.acc, st.rest, ov, c);
    PutOpen(f.acc, o.acc, st.rest, ov, c, e);
    var fa, oa, rest := f.acc[c := f.acc[c][k := e.value]], o.acc[c := o.acc[c][k := v]], st.rest[c := st.rest[c] - {k}];
    assert LoadOne(f, Pair(e)) == LoadState(f.cur, fa);
    assert LoadOne(o, Pair(Entry(k, v))) == LoadState(o.cur, oa);
    assert Base(fa, oa, rest, ov);
    forall x | x in fa && x in ov && Some(x) != f.cur ensures Done(fa, oa, rest, ov, x) {
      assert Done(f.acc, o.acc, st.rest, ov, x);
    }
  }

  /** The bucket entry moves from what is left of the bucket to what the written lines loaded. */
  lemma PutOpen(fa: Table, oa: Table, rest: Table, ov: Table, c: string, e: Entry)
    requires Open(fa, oa, rest, ov, c) && e.key in rest[c]
    ensures e.key !in fa[c] && e.key !in oa[c]
    ensures Open(fa[c := fa[c][e.key := e.value]], oa[c := oa[c][e.key := rest[c][e.key]]],
                 rest[c := rest[c] - {e.key}], ov, c)
  {
    var k := e.key;
    assert k !in fa[c];
    OpenRest(fa, oa, rest, ov, c);
    PutMoves(oa[c], rest[c], k);
    Overridden(fa[c], ov[c], k, e.value);
  }

  lemma RenderLiteral(w: string, os: seq<seq<string>>)
    requires Fits([Literal(w)], os)
    ensures Render([Literal(w)], os) == [w]
  {
    assert FitsOne(Literal(w), os[0]);
    assert Render([Literal(w)], os) == [w] + Render([], []);
  }

  /** The key line written for a bucket entry reads back as that entry. */
  lemma PutLine(c: string, k: string, v: string, os: seq<seq<string>>)
    requires IsPlainEntry(k, v) && Fits([Put(c, k, v)], os)
    ensures EveryEndsLine(Render([Put(c, k, v)], os))
    ensures Reread(Render([Put(c, k, v)], os)) == [Pair(Entry(k, v))]
  {
    RenderPut(c, k, v, os);
    KeyLineRead(k, v);
  }

  lemma RenderPut(c: string, k: string, v: string, os: seq<seq<string>>)
    requires Fits([Put(c, k, v)], os)
    ensures Render([Put(c, k, v)], os) == [KeyLine(k, v)]
  {
    assert FitsOne(Put(c, k, v), os[0]);
    assert Render([Put(c, k, v)], os) == [KeyLine(k, v)] + Render([], []);
  }

  lemma KeyLineRead(k: string, v: string)
    requires IsPlainEntry(k, v)
    ensures EveryEndsLine([KeyLine(k, v)]) && Reread([KeyLine(k, v)]) == [Pair(Entry(k, v))]
  {
    Reload.KeyLinePlain(k, v);
    NoBreakEnds(KeyLine(k, v));
    PlainKind(KeyLine(k, v));
    KeyLineKind(k, v);
  }

  lemma KeyLineKind(k: string, v: string)
    requires IsPlainEntry(k, v)
    ensures KindOf(KeyLine(k, v)) == Pair(Entry(k, v))
  {
    KeyLineParses(k, v);
  }

  /** Literal pieces fit only empty orders. */
  lemma FitsLiterals(ts: seq<string>, os: seq<seq<string>>)
    requires Fits(Literals(ts), os)
    ensures os == NoOrders(|ts|)
  {
    forall i | 0 <= i < |ts| ensures os[i] == [] {
      assert Literals(ts)[i] == Literal(ts[i]);
      assert FitsOne(Literals(ts)[i], os[i]);
    }
  }

  // ---------------------------------------------------------------- leaving a section

  /** The dump of what is left of a bucket, with a fitting order, and the blank line after it. */
  lemma RenderLeave(c: string, b: map<string, string>, os: seq<seq<string>>)
    requires Fits([Dump(c, b), Literal("")], os)
    ensures IsEnumeration(os[0], b.Keys)
    ensures Render([Dump(c, b), Literal("")], os) == KeyLines(os[0], b) + [""]
  {
    var ps := [Dump(c, b), Literal("")];
    assert FitsOne(ps[0], os[0]) && FitsOne(ps[1], os[1]);
    assert ps[1..] == [Literal("")] && os[1..] == [[]];
    assert Render(ps[1..], os[1..]) == [""] + Render([], []);
  }

  /** The written lines of a dump and the blank line after it: one pair per key, then an inert line. */
  lemma DumpLines(b: map<string, string>, ks: seq<string>)
    requires IsEnumeration(ks, b.Keys) && forall k :: k in b ==> IsPlainEntry(k, b[k])
    ensures EveryEndsLine(KeyLines(ks, b) + [""])
    ensures Reread(KeyLines(ks, b) + [""]) == PairKinds(ks, b) + [Other]
  {
    var kl := KeyLines(ks, b);
    KeyLinesEnd(ks, b);
    BlankLine();
    RereadAppend(kl, [""]);
    EveryEndsLineAppend(kl, [""]);
  }

  lemma KeyLinesEnd(ks: seq<string>, b: map<string, string>)
    requires IsEnumeration(ks, b.Keys) && forall k :: k in b ==> IsPlainEntry(k, b[k])
    ensures EveryEndsLine(KeyLines(ks, b)) && Reread(KeyLines(ks, b)) == PairKinds(ks, b)
  {
    var kl := KeyLines(ks, b);
    KindsOfKeyLines(ks, b);
    forall j | 0 <= j < |kl| ensures EndsLine(kl[j]) {
      NoBreakEnds(kl[j]);
    }
  }

  /** The blank line after a dump is one inert line. */
  lemma BlankLine()
    ensures EveryEndsLine([""]) && Reread([""]) == [Other]
  {
    SeparatorLines(false);
  }

  /** The written lines of a dump, read back, add the bucket's entries to the current section. */
  lemma LoadDump(o: LoadState, c: string, b: map<string, string>, ks: seq<string>)
    requires o.cur == Some(c) && c in o.acc && IsEnumeration(ks, b.Keys) && b.Keys !! o.acc[c].Keys
    requires forall k :: k in b ==> IsPlainEntry(k, b[k])
    ensures EveryEndsLine(KeyLines(ks, b) + [""])
    ensures LoadRun(Reread(KeyLines(ks, b) + [""]), o).acc == o.acc[c := o.acc[c] + b]
  {
    DumpLines(b, ks);
    LoadDumpKinds(o, c, b, ks);
  }

  lemma LoadDumpKinds(o: LoadState, c: string, b: map<string, string>, ks: seq<string>)
    requires o.cur == Some(c) && c in o.acc && IsEnumeration(ks, b.Keys) && b.Keys !! o.acc[c].Keys
    ensures LoadRun(PairKinds(ks, b) + [Other], o).acc == o.acc[c := o.acc[c] + b]
  {
    assert forall k :: k in ks ==> k in b && k !in o.acc[c];
    LoadPairs(ks, b, [Other], c, o.acc);
    PickedAll(ks, b);
    var acc' := o.acc[c := o.acc[c] + b];
    LoadRunOne(Other, LoadState(Some(c), acc'));
    assert o == LoadState(Some(c), o.acc);
  }

  lemma PickedAll(ks: seq<string>, b: map<string, string>)
    requires IsEnumeration(ks, b.Keys)
    ensures Picked(ks, b) == b
  {
  }

  /** Leaving a section writes the rest of its bucket; the section is then done in both passes. */
  lemma LeaveFinal(f: LoadState, o: LoadState, st: ScanState, ov: Table, os: seq<seq<string>>)
    requires Sim(f, o, st, ov) && PlainTable(ov)
    requires Fits(LeaveSection(st).pieces, os)
    ensures EveryEndsLine(Render(LeaveSection(st).pieces, os))
    ensures Final(f.acc, LoadRun(Reread(Render(LeaveSection(st).pieces, os)), o).acc, LeaveSection(st).next.rest, ov)
  {
    var l := LeaveSection(st);
    if l.pieces == [] {
      assert Render(l.pieces, os) == [];
      assert Reread([]) == [];
      LeaveEmpty(f, o, st, ov);
    } else {
      var c := st.cur.value;
      var b := st.rest[c];
      assert l.pieces == [Dump(c, b), Literal("")];
      assert l.next.rest == st.rest[c := map[]];
      RenderLeave(c, b, os);
      LeaveBucket(f, o, st, ov, os[0]);
    }
  }

  /** Leaving a section whose bucket is empty, or that has none: nothing is written. */
  lemma LeaveEmpty(f: LoadState, o: LoadState, st: ScanState, ov: Table)
    requires Sim(f, o, st, ov)
    requires !(st.cur.Some? && st.cur.value in st.rest && |st.rest[st.cur.value]| > 0)
    ensures Final(f.acc, o.acc, st.rest, ov)
  {
    if f.cur.Some? && f.cur.value in ov {
      var c := f.cur.value;
      assert Open(f.acc, o.acc, st.rest, ov, c);
      assert st.rest[c].Keys == {};
      assert st.rest[c] == map[];
      assert Done(f.acc, o.acc, st.rest, ov, c);
    }
  }

  /** Leaving a section with keys left in its bucket: they are written and loaded after the file's keys. */
  lemma LeaveBucket(f: LoadState, o: LoadState, st: ScanState, ov: Table, ks: seq<string>)
    requires Sim(f, o, st, ov) && PlainTable(ov)
    requires st.cur.Some? && st.cur.value in st.rest && |st.rest[st.cur.value]| > 0
    requires IsEnumeration(ks, st.rest[st.cur.value].Keys)
    ensures var c := st.cur.value;
      && EveryEndsLine(KeyLines(ks, st.rest[c]) + [""])
      && Final(f.acc, LoadRun(Reread(KeyLines(ks, st.rest[c]) + [""]), o).acc, st.rest[c := map[]], ov)
  {
    var c := st.cur.value;
    var b := st.rest[c];
    assert b != map[];
    assert f.cur == Some(c) && c in ov;
    assert Open(f.acc, o.acc, st.rest, ov, c);
    OpenRest(f.acc, o.acc, st.rest, ov, c);
    assert forall k :: k in b ==> IsPlainEntry(k, b[k]);
    LoadDump(o, c, b, ks);
    DumpDone(f.acc, o.acc, st.rest, ov, c);
  }

  /** The bucket left of the open section, loaded after its keys, makes it done. */
  lemma DumpDone(fa: Table, oa: Table, rest: Table, ov: Table, c: string)
    requires Base(fa, oa, rest, ov) && Open(fa, oa, rest, ov, c)
    requires forall x :: x in fa && x in ov && x != c ==> Done(fa, oa, rest, ov, x)
    ensures Final(fa, oa[c := oa[c] + rest[c]], rest[c := map[]], ov)
  {
    var oa', rest' := oa[c := oa[c] + rest[c]], rest[c := map[]];
    assert oa'.Keys == fa.Keys && rest'.Keys == ov.Keys;
    forall x | x in ov && x !in fa ensures rest'[x] == ov[x] {
      assert x != c && rest'[x] == rest[x];
    }
    forall x | x in fa && x !in ov ensures oa'[x] == fa[x] {
      assert x != c && oa'[x] == oa[x];
    }
    assert Base(fa, oa', rest', ov);
    assert oa'[c] == fa[c] + ov[c];
    assert Done(fa, oa', rest', ov, c);
    forall x | x in fa && x in ov ensures Done(fa, oa', rest', ov, x) {
      if x != c {
        assert Done(fa, oa, rest, ov, x);
      }
    }
  }

  // ---------------------------------------------------------------- a header

  /** A header after a finished section: both passes open it or both close it, and the scan follows. */
  lemma HeaderStart(f: LoadState, o: LoadState, rest: Table, ov: Table, n: string, commentK: seq<LineKind>)
    requires Final(f.acc, o.acc, rest, ov) && AllOther(commentK)
    ensures Sim(LoadOne(f, Header(n)), LoadRun([Header(n)] + commentK, o),
                ScanState(if n in rest then Some(n) else None, rest), ov)
  {
    LoadRunAppend([Header(n)], commentK, o);
    LoadRunOne(Header(n), o);
    LoadRunOthers(commentK, LoadOne(o, Header(n)));
    if n in f.acc {
      assert n in o.acc;
      if n in rest {
        assert Done(f.acc, o.acc, rest, ov, n);
      }
    } else {
      OthersKept(f.acc, o.acc, rest, ov, n, map[], map[]);
      if n in ov {
        assert rest[n] == ov[n];
        assert Open(f.acc[n := map[]], o.acc[n := map[]], rest, ov, n);
      }
    }
  }

  /** The comment lines written after a header, when the section has a comment. */
  function CommentOf(n: string, comments: map<string, string>): seq<string>
  {
    if n in comments then [comments[n]] else []
  }

  /** The pieces a header line adds after leaving the current section: the line, then the section's comment. */
  function HeaderPieces(line: Line, comments: map<string, string>): seq<Piece>
    requires line.kind.Header?
  {
    [Literal(line.text)] + (if line.kind.name in comments then [Literal(comments[line.kind.name])] else [])
  }

  /** A line of the file, copied, reads back as itself. */
  lemma LineRead(line: Line)
    requires IsFileLine(line)
    ensures EveryEndsLine([line.text]) && Reread([line.text]) == [line.kind]
  {
    NoBreakEnds(line.text);
    PlainKind(line.text);
  }

  /** The header line and the section's comment, written and read back. */
  lemma HeaderTail(line: Line, comments: map<string, string>, os: seq<seq<string>>)
    requires IsFileLine(line) && line.kind.Header? && InertComments(comments)
    requires Fits(HeaderPieces(line, comments), os)
    ensures EveryEndsLine(Render(HeaderPieces(line, comments), os))
    ensures Reread(Render(HeaderPieces(line, comments), os)) == [line.kind] + Reread(CommentOf(line.kind.name, comments))
  {
    HeaderRender(line, comments, os);
    HeaderRead(line, comments);
  }

  lemma HeaderRender(line: Line, comments: map<string, string>, os: seq<seq<string>>)
    requires line.kind.Header? && Fits(HeaderPieces(line, comments), os)
    ensures Render(HeaderPieces(line, comments), os) == [line.text] + CommentOf(line.kind.name, comments)
  {
    var ts := [line.text] + CommentOf(line.kind.name, comments);
    assert HeaderPieces(line, comments) == Literals(ts);
    FitsLiterals(ts, os);
    RenderLiterals(ts);
  }

  lemma HeaderRead(line: Line, comments: map<string, string>)
    requires IsFileLine(line) && line.kind.Header? && InertComments(comments)
    ensures EveryEndsLine([line.text] + CommentOf(line.kind.name, comments))
    ensures Reread([line.text] + CommentOf(line.kind.name, comments)) == [line.kind] + Reread(CommentOf(line.kind.name, comments))
  {
    var cl := CommentOf(line.kind.name, comments);
    CommentLines(line.kind.name, comments);
    LineRead(line);
    RereadAppend([line.text], cl);
    EveryEndsLineAppend([line.text], cl);
  }

  lemma HeaderStep(st: ScanState, line: Line, comments: map<string, string>)
    requires line.kind.Header?
    ensures var left := LeaveSection(st);
      Step(st, line, comments) == Stepped(left.pieces + HeaderPieces(line, comments),
        ScanState(if line.kind.name in left.next.rest then Some(line.kind.name) else None, left.next.rest))
  {
  }

  lemma HeaderSim(f: LoadState, o: LoadState, st: ScanState, line: Line, ov: Table, comments: map<string, string>,
                  os: seq<seq<string>>)
    requires Sim(f, o, st, ov) && PlainTable(ov) && InertComments(comments)
    requires IsFileLine(line) && line.kind.Header?
    requires Fits(Step(st, line, comments).pieces, os)
    ensures EveryEndsLine(Render(Step(st, line, comments).pieces, os))
    ensures Sim(LoadOne(f, line.kind), LoadRun(Reread(Render(Step(st, line, comments).pieces, os)), o),
                Step(st, line, comments).next, ov)
  {
    var left := LeaveSection(st);
    var tail := HeaderPieces(line, comments);
    HeaderStep(st, line, comments);
    RereadRenderSplit(left.pieces, tail, os);
    HeaderParts(f, o, st, line, ov, comments, os[..|left.pieces|], os[|left.pieces|..]);
  }

  /** A header, in two parts: leaving the current section, then the header line and the comment. */
  lemma HeaderParts(f: LoadState, o: LoadState, st: ScanState, line: Line, ov: Table, comments: map<string, string>,
                    o1: seq<seq<string>>, o2: seq<seq<string>>)
    requires Sim(f, o, st, ov) && PlainTable(ov) && InertComments(comments)
    requires IsFileLine(line) && line.kind.Header?
    requires Fits(LeaveSection(st).pieces, o1) && Fits(HeaderPieces(line, comments), o2)
    ensures var w1, w2 := Render(LeaveSection(st).pieces, o1), Render(HeaderPieces(line, comments), o2);
      var rest := LeaveSection(st).next.rest;
      && EveryEndsLine(w1 + w2)
      && Sim(LoadOne(f, line.kind), LoadRun(Reread(w1) + Reread(w2), o),
             ScanState(if line.kind.name in rest then Some(line.kind.name) else None, rest), ov)
  {
    var n := line.kind.name;
    var left := LeaveSection(st);
    var cl := CommentOf(n, comments);
    var tail := HeaderPieces(line, comments);
    LeaveFinal(f, o, st, ov, o1);
    HeaderTail(line, comments, o2);
    CommentLines(n, comments);
    var r1 := Reread(Render(left.pieces, o1));
    LoadRunAppend(r1, Reread(Render(tail, o2)), o);
    HeaderStart(f, LoadRun(r1, o), left.next.rest, ov, n, Reread(cl));
    EveryEndsLineAppend(Render(left.pieces, o1), Render(tail, o2));
  }

  // ---------------------------------------------------------------- the scan

  lemma StepSim(f: LoadState, o: LoadState, st: ScanState, line: Line, ov: Table, comments: map<string, string>,
                os: seq<seq<string>>)
    requires Sim(f, o, st, ov) && PlainTable(ov) && InertComments(comments) && IsFileLine(line)
    requires Fits(Step(st, line, comments).pieces, os)
    ensures EveryEndsLine(Render(Step(st, line, comments).pieces, os))
    ensures Sim(LoadOne(f, line.kind), LoadRun(Reread(Render(Step(st, line, comments).pieces, os)), o),
                Step(st, line, comments).next, ov)
  {
    var r := Step(st, line, comments);
    if line.kind.Header? {
      HeaderSim(f, o, st, line, ov, comments, os);
    } else if line.kind.Pair? && st.cur.Some? && st.cur.value in st.rest && line.kind.entry.key in st.rest[st.cur.value] {
      var c, e := st.cur.value, line.kind.entry;
      var v := st.rest[c][e.key];
      PutSim(f, o, st, ov, e);
      assert r.pieces == [Put(c, e.key, v)];
      PutLine(c, e.key, v, os);
      LoadRunOne(Pair(Entry(e.key, v)), o);
    } else {
      assert r.pieces == [Literal(line.text)] && r.next == st;
      RenderLiteral(line.text, os);
      LineRead(line);
      LoadRunOne(line.kind, o);
      CopySim(f, o, st, ov, line.kind);
    }
  }

  /** The pass over the kinds of some lines is the pass over the first, continued over the others. */
  lemma LoadLineKinds(ls: seq<Line>, f: LoadState)
    requires ls != []
    ensures LoadRun(LineKinds(ls), f) == LoadRun(LineKinds(ls[1..]), LoadOne(f, ls[0].kind))
  {
    assert LineKinds(ls) == [ls[0].kind] + LineKinds(ls[1..]);
    LoadRunAppend([ls[0].kind], LineKinds(ls[1..]), f);
    LoadRunOne(ls[0].kind, f);
  }

  /**
   * The scan of the original lines: the pass over the written lines ends as the pass over the
   * original lines with each bucket the file has a section for put over that section.
   */
  lemma {:induction false} ScanSim(ls: seq<Line>, st: ScanState, f: LoadState, o: LoadState, ov: Table,
                                   comments: map<string, string>, orders: seq<seq<string>>)
    requires Sim(f, o, st, ov) && PlainTable(ov) && InertComments(comments)
    requires forall i :: 0 <= i < |ls| ==> IsFileLine(ls[i])
    requires Fits(Scan(ls, st, comments).pieces, orders)
    ensures EveryEndsLine(Render(Scan(ls, st, comments).pieces, orders))
    ensures Final(LoadRun(LineKinds(ls), f).acc, LoadRun(Reread(Render(Scan(ls, st, comments).pieces, orders)), o).acc,
                  Scan(ls, st, comments).next.rest, ov)
    decreases |ls|
  {
    if ls == [] {
      LeaveFinal(f, o, st, ov, orders);
      assert LineKinds(ls) == [];
    } else {
      var a := Step(st, ls[0], comments);
      var b := Scan(ls[1..], a.next, comments);
      assert Scan(ls, st, comments).pieces == a.pieces + b.pieces;
      RereadRenderSplit(a.pieces, b.pieces, orders);
      var oa, ob := orders[..|a.pieces|], orders[|a.pieces|..];
      StepSim(f, o, st, ls[0], ov, comments, oa);
      var f1 := LoadOne(f, ls[0].kind);
      var ra := Reread(Render(a.pieces, oa));
      var o1 := LoadRun(ra, o);
      ScanSim(ls[1..], a.next, f1, o1, ov, comments, ob);
      LoadRunAppend(ra, Reread(Render(b.pieces, ob)), o);
      LoadLineKinds(ls, f);
      EveryEndsLineAppend(Render(a.pieces, oa), Render(b.pieces, ob));
    }
  }

  // ---------------------------------------------------------------- the patched file, read back

  /**
   * The file's table with the overlay put over it: every section of the file and every overlay section
   * that has keys, an overlay value winning over the file's.
   */
  function Patched(l: Table, ov: Table): (r: Table)
    ensures r.Keys == l.Keys + NonEmpty(ov).Keys
  {
    map s | s in l.Keys + NonEmpty(ov).Keys :: (if s in l then l[s] else map[]) + (if s in ov then ov[s] else map[])
  }

  /** In the patched table, an overlay value wins, and every other value is the file's. */
  lemma PatchedLookup(l: Table, ov: Table, s: string, k: string)
    ensures Lookup(Patched(l, ov), s, k) == if Lookup(ov, s, k).Some? then Lookup(ov, s, k) else Lookup(l, s, k)
  {
    if s in ov && k in ov[s] {
      assert s in NonEmpty(ov);
    }
  }

  /** When the scan is done, the buckets left are plain and are for sections the written lines lack or that are empty. */
  lemma FinalRest(fa: Table, oa: Table, rest: Table, ov: Table, ss: seq<string>)
    requires Final(fa, oa, rest, ov) && PlainTable(ov) && IsEnumeration(ss, rest.Keys)
    ensures PlainTable(rest) && Unseen(ss, rest, oa)
  {
    forall x | x in rest ensures IsPlainName(x) && forall k :: k in rest[x] ==> IsPlainEntry(k, rest[x][k]) {
      if x in fa {
        assert Done(fa, oa, rest, ov, x);
      }
    }
    forall x | x in ss ensures x in rest && (x !in oa || |rest[x]| == 0) {
      if x in oa {
        assert Done(fa, oa, rest, ov, x);
      }
    }
  }

  /** The written lines loaded, then the blocks of the buckets left: the file's table patched with the overlay. */
  lemma FinalPatched(fa: Table, oa: Table, rest: Table, ov: Table, ss: seq<string>)
    requires Final(fa, oa, rest, ov) && IsEnumeration(ss, rest.Keys)
    ensures oa + NonEmptyOf(ss, rest) == Patched(fa, ov)
  {
    NonEmptyOfEntries(ss, rest);
    FinalMerged(fa, oa, rest, ov, ss, NonEmptyOf(ss, rest));
  }

  lemma FinalMerged(fa: Table, oa: Table, rest: Table, ov: Table, ss: seq<string>, ne: Table)
    requires Final(fa, oa, rest, ov) && IsEnumeration(ss, rest.Keys)
    requires forall x :: x in ne <==> x in ss && |rest[x]| > 0
    requires forall x :: x in ne ==> ne[x] == rest[x]
    ensures oa + ne == Patched(fa, ov)
  {
    FinalSections(fa, oa, rest, ov, ss, ne);
    forall x | x in oa + ne ensures (oa + ne)[x] == Patched(fa, ov)[x] {
      FinalSection(fa, oa, rest, ov, ne, x);
    }
    SameTables(oa + ne, Patched(fa, ov));
  }

  lemma SameTables(a: Table, b: Table)
    requires a.Keys == b.Keys && forall x :: x in a ==> a[x] == b[x]
    ensures a == b
  {
  }

  /** The sections loaded in the end are the file's and the overlay's that have keys. */
  lemma FinalSections(fa: Table, oa: Table, rest: Table, ov: Table, ss: seq<string>, ne: Table)
    requires Final(fa, oa, rest, ov) && IsEnumeration(ss, rest.Keys)
    requires forall x :: x in ne <==> x in ss && |rest[x]| > 0
    ensures (oa + ne).Keys == Patched(fa, ov).Keys
  {
    forall x ensures x in oa + ne <==> x in Patched(fa, ov) {
      if x in ov && x !in fa {
        assert rest[x] == ov[x];
      }
    }
  }

  lemma FinalSection(fa: Table, oa: Table, rest: Table, ov: Table, ne: Table, x: string)
    requires Final(fa, oa, rest, ov)
    requires forall y :: y in ne ==> y in rest && |rest[y]| > 0 && ne[y] == rest[y]
    requires forall y :: y in rest && |rest[y]| > 0 ==> y in ne
    requires x in oa + ne && x in Patched(fa, ov)
    ensures (oa + ne)[x] == Patched(fa, ov)[x]
  {
    if x in fa && x in ov {
      assert Done(fa, oa, rest, ov, x);
      assert x !in ne;
    } else if x !in fa {
      assert rest[x] == ov[x];
    }
    PatchedAt(fa, oa, ne, ov, x);
  }

  /** A section of the patched table: the file's section with the overlay's bucket over it, when there is one. */
  lemma PatchedAt(fa: Table, oa: Table, ne: Table, ov: Table, x: string)
    requires oa.Keys == fa.Keys && ne.Keys <= ov.Keys && x in Patched(fa, ov)
    requires x in fa && x in ov ==> oa[x] == fa[x] + ov[x] && x !in ne
    requires x in fa && x !in ov ==> oa[x] == fa[x]
    requires x !in fa ==> x in ne && ne[x] == ov[x]
    ensures (oa + ne)[x] == Patched(fa, ov)[x]
  {
    var v := PatchedValue(fa, ov, x);
    if x in fa && x in ov {
      assert (oa + ne)[x] == oa[x];
    } else if x in fa {
      FileOnly(fa[x], oa + ne, x, v);
    } else {
      OverlayOnly(ov[x], oa + ne, x, v);
    }
  }

  lemma FileOnly(b: map<string, string>, r: Table, x: string, v: map<string, string>)
    requires x in r && r[x] == b && v == b + map[]
    ensures r[x] == v
  {
  }

  lemma OverlayOnly(b: map<string, string>, r: Table, x: string, v: map<string, string>)
    requires x in r && r[x] == b && v == map[] + b
    ensures r[x] == v
  {
  }

  lemma PatchedValue(l: Table, ov: Table, x: string) returns (v: map<string, string>)
    requires x in Patched(l, ov)
    ensures v == Patched(l, ov)[x] == (if x in l then l[x] else map[]) + (if x in ov then ov[x] else map[])
  {
    v := Patched(l, ov)[x];
  }

  /** The empty file: nothing is loaded, and the whole overlay is left for the blocks. */
  lemma FinalEmpty(ov: Table)
    ensures Final(map[], map[], ov, ov)
  {
  }

  /**
   * A patch flush, written line by line and read and loaded again, holds the file's table with the
   * overlay put over it, for every enumeration order of sections and keys: each overlay entry has its
   * overlay value, each other entry of the file its old value, and each overlay section the file
   * lacks is there when it has keys.
   */
  lemma PatchReloads(file: Option<seq<string>>, overlay: Table, comments: map<string, string>, ss: seq<string>,
                     orders: seq<seq<string>>, nl: string)
    requires file.Some? ==> forall i :: 0 <= i < |file.value| ==> NoBreak(file.value[i])
    requires PlainTable(overlay) && InertComments(comments) && IsNewLine(nl)
    requires IsEnumeration(ss, Scanned(file, overlay, comments).next.rest.Keys)
    requires Fits(Scanned(file, overlay, comments).pieces
                  + Blocks(ss, Scanned(file, overlay, comments).next.rest, comments, true), orders)
    ensures var sc := Scanned(file, overlay, comments);
      var reloaded := Load(Some(ReadText(WriteText(Render(sc.pieces + Blocks(ss, sc.next.rest, comments, true), orders), nl))));
      && reloaded == Patched(Load(file), overlay)
      && reloaded.Keys == Load(file).Keys + NonEmpty(overlay).Keys
      && (forall s, k :: Lookup(overlay, s, k).Some? ==> Lookup(reloaded, s, k) == Lookup(overlay, s, k))
      && (forall s, k :: Lookup(overlay, s, k).None? ==> Lookup(reloaded, s, k) == Lookup(Load(file), s, k))
  {
    var sc := Scanned(file, overlay, comments);
    var rest := sc.next.rest;
    var bs := Blocks(ss, rest, comments, true);
    RereadRenderSplit(sc.pieces, bs, orders);
    var op, ob := orders[..|sc.pieces|], orders[|sc.pieces|..];
    var start := LoadState(None, map[]);
    var outP := Render(sc.pieces, op);
    var o := LoadRun(Reread(outP), start);
    if file.Some? {
      var ls := ReadLines(file.value);
      ReadFile(file.value);
      SimStart(overlay);
      ScanSim(ls, ScanState(None, overlay), start, start, overlay, comments, op);
    } else {
      assert outP == [] && Reread([]) == [];
      FinalEmpty(overlay);
    }
    assert Final(Load(file), o.acc, rest, overlay);
    FinalRest(Load(file), o.acc, rest, overlay, ss);
    LoadBlocks(ss, rest, comments, true, ob, o.cur, o.acc);
    FinalPatched(Load(file), o.acc, rest, overlay, ss);
    var out := outP + Render(bs, ob);
    EveryEndsLineAppend(outP, Render(bs, ob));
    WriteThenRead(out, nl);
    LoadRunAppend(Reread(outP), Reread(Render(bs, ob)), start);
    assert o == LoadState(o.cur, o.acc);
    forall s, k {
      PatchedLookup(Load(file), overlay, s, k);
    }
  }
}
