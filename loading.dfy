/**
 * What a load pass (`Refresh`) builds from the lines of a file, and an independent, declarative
 * description of it: a section is every name that has a header, and its keys are those of the block
 * under its FIRST header, the first occurrence of each key winning.
 *
 * The pass is stated over the classified lines (`IniLine.Classify` of each trimmed line).
 */
module Loading {
  import opened Wrappers
  import opened Text
  import opened IniLine

  /** `f` applied to every element of `xs`, in order. */
  function MapSeq<A, B>(f: A -> B, xs: seq<A>): (ys: seq<B>)
    ensures |ys| == |xs|
    decreases |xs|
  {
    if xs == [] then [] else [f(xs[0])] + MapSeq(f, xs[1..])
  }

  lemma {:induction false} MapSeqAt<A, B>(f: A -> B, xs: seq<A>, i: nat)
    requires i < |xs|
    ensures MapSeq(f, xs)[i] == f(xs[i])
  {
    if i > 0 {
      assert xs[1..][i - 1] == xs[i];
      MapSeqAt(f, xs[1..], i - 1);
    }
  }

  lemma {:induction false} MapSeqAppend<A, B>(f: A -> B, a: seq<A>, b: seq<A>)
    ensures MapSeq(f, a + b) == MapSeq(f, a) + MapSeq(f, b)
  {
    if a == [] {
      assert a + b == b;
    } else {
      assert (a + b)[1..] == a[1..] + b;
      MapSeqAppend(f, a[1..], b);
    }
  }

  /** How the load pass and the patch flush see one line: trimmed, then classified. */
  function KindOf(line: string): LineKind
  {
    Classify(Trim(line))
  }

  /** The classification of every line of a file, each trimmed first. */
  function KindsOf(lines: seq<string>): (ks: seq<LineKind>)
    ensures |ks| == |lines|
  {
    MapSeq(KindOf, lines)
  }

  lemma KindsAt(lines: seq<string>, i: nat)
    requires i < |lines|
    ensures KindsOf(lines)[i] == Classify(Trim(lines[i]))
  {
    MapSeqAt(KindOf, lines, i);
  }

  lemma KindsOfOne(line: string)
    ensures KindsOf([line]) == [KindOf(line)]
  {
    MapSeqAt(KindOf, [line], 0);
  }

  lemma KindsAppend(a: seq<string>, b: seq<string>)
    ensures KindsOf(a + b) == KindsOf(a) + KindsOf(b)
  {
    MapSeqAppend(KindOf, a, b);
  }

  /**
   * Where the load pass stands: the current section (`None` before any header and under a repeated
   * header) and the table built so far.
   */
  datatype LoadState = LoadState(cur: Option<string>, acc: Table)

  /**
   * One line of the load pass: a header of a new section opens it, a repeated header closes the
   * current section, and a pair is added to the current section unless it has the key already.
   */
  function LoadOne(st: LoadState, k: LineKind): LoadState
  {
    match k
    case Header(name) =>
      if name in st.acc then LoadState(None, st.acc) else LoadState(Some(name), st.acc[name := map[]])
    case Pair(e) =>
      if st.cur.Some? && st.cur.value in st.acc && e.key !in st.acc[st.cur.value] then
        LoadState(st.cur, st.acc[st.cur.value := st.acc[st.cur.value][e.key := e.value]])
      else st
    case Other => st
  }

  /** The load pass over the lines `ks`, from the state `st`. */
  function LoadRun(ks: seq<LineKind>, st: LoadState): LoadState
    decreases |ks|
  {
    if ks == [] then st else LoadRun(ks[1..], LoadOne(st, ks[0]))
  }

  /** The table the load pass builds from `ks[0]` on, with current section `cur` and table `acc`. */
  function LoadFrom(ks: seq<LineKind>, cur: Option<string>, acc: Table): Table
  {
    LoadRun(ks, LoadState(cur, acc)).acc
  }

  /** The load pass over two runs of lines is the pass over the first, continued over the second. */
  lemma {:induction false} LoadRunAppend(a: seq<LineKind>, b: seq<LineKind>, st: LoadState)
    ensures LoadRun(a + b, st) == LoadRun(b, LoadRun(a, st))
    decreases |a|
  {
    if a == [] {
      assert a + b == b;
    } else {
      assert (a + b)[0] == a[0] && (a + b)[1..] == a[1..] + b;
      LoadRunAppend(a[1..], b, LoadOne(st, a[0]));
    }
  }

  /** The table a load pass builds; a missing file gives the empty table. */
  function Load(file: Option<seq<string>>): Table
  {
    match file
    case None => map[]
    case Some(lines) => LoadFrom(KindsOf(lines), None, map[])
  }

  // ---------------------------------------------------------------- the declarative description

  /** The names of all header lines. */
  function Headers(ks: seq<LineKind>): set<string>
  {
    if ks == [] then {}
    else (if ks[0].Header? then {ks[0].name} else {}) + Headers(ks[1..])
  }

  /** The lines up to (not including) the next header line. */
  function Body(ks: seq<LineKind>): seq<LineKind>
  {
    if ks == [] || ks[0].Header? then [] else [ks[0]] + Body(ks[1..])
  }

  /** The block under the first header named `s`. */
  function FirstBlock(ks: seq<LineKind>, s: string): seq<LineKind>
  {
    if ks == [] then []
    else if ks[0] == Header(s) then Body(ks[1..])
    else FirstBlock(ks[1..], s)
  }

  /** The key/value pairs of a block, an earlier occurrence of a key overriding any later one. */
  function Entries(block: seq<LineKind>): map<string, string>
  {
    if block == [] then map[]
    else if block[0].Pair? then Entries(block[1..])[block[0].entry.key := block[0].entry.value]
    else Entries(block[1..])
  }

  /** `r` is what the load pass from `ks` with current section `cur` and table `acc` must build. */
  ghost predicate Described(ks: seq<LineKind>, cur: Option<string>, acc: Table, r: Table)
    requires cur.Some? ==> cur.value in acc
  {
    && r.Keys == acc.Keys + Headers(ks)
    && (forall s :: s in acc && Some(s) != cur ==> r[s] == acc[s])
    && (cur.Some? ==> r[cur.value] == Entries(Body(ks)) + acc[cur.value])
    && (forall s :: s !in acc && s in Headers(ks) ==> r[s] == Entries(FirstBlock(ks, s)))
  }

  /** The load pass from any point, described declaratively. */
  lemma {:induction false} LoadFromDescribed(ks: seq<LineKind>, cur: Option<string>, acc: Table)
    requires cur.Some? ==> cur.value in acc
    ensures Described(ks, cur, acc, LoadFrom(ks, cur, acc))
    decreases |ks|, 1
  {
    if ks == [] {
      if cur.Some? {
        assert Entries(Body(ks)) + acc[cur.value] == acc[cur.value];
      }
    } else if ks[0].Header? {
      HeaderDescribed(ks, cur, acc);
    } else if ks[0].Pair? && cur.Some? {
      PairDescribed(ks, cur, acc);
    } else {
      OtherDescribed(ks, cur, acc);
    }
  }

  lemma {:induction false} HeaderDescribed(ks: seq<LineKind>, cur: Option<string>, acc: Table)
    requires cur.Some? ==> cur.value in acc
    requires ks != [] && ks[0].Header?
    ensures Described(ks, cur, acc, LoadFrom(ks, cur, acc))
    decreases |ks|, 0
  {
    var rest, name := ks[1..], ks[0].name;
    HeaderShapes(ks);
    if cur.Some? {
      assert Entries(Body(ks)) + acc[cur.value] == acc[cur.value];
    }
    if name in acc {
      LoadFromDescribed(rest, None, acc);
    } else {
      var acc' := acc[name := map[]];
      LoadFromDescribed(rest, Some(name), acc');
      assert Entries(Body(rest)) + acc'[name] == Entries(Body(rest));
    }
  }

  /** How the description sees a file that starts with a header. */
  lemma HeaderShapes(ks: seq<LineKind>)
    requires ks != [] && ks[0].Header?
    ensures Body(ks) == []
    ensures Headers(ks) == {ks[0].name} + Headers(ks[1..])
    ensures forall s :: s != ks[0].name ==> FirstBlock(ks, s) == FirstBlock(ks[1..], s)
    ensures FirstBlock(ks, ks[0].name) == Body(ks[1..])
  {
  }

  /** A pair line under a current section. */
  lemma {:induction false} PairDescribed(ks: seq<LineKind>, cur: Option<string>, acc: Table)
    requires cur.Some? && cur.value in acc
    requires ks != [] && ks[0].Pair?
    ensures Described(ks, cur, acc, LoadFrom(ks, cur, acc))
    decreases |ks|, 0
  {
    var rest, c, e := ks[1..], cur.value, ks[0].entry;
    assert Body(ks) == [ks[0]] + Body(rest);
    assert Headers(ks) == Headers(rest);
    assert forall s :: FirstBlock(ks, s) == FirstBlock(rest, s);
    assert Entries(Body(ks)) == Entries(Body(rest))[e.key := e.value];
    if e.key in acc[c] {
      LoadFromDescribed(rest, cur, acc);
      OverrideShadowed(Entries(Body(rest)), acc[c], e.key, e.value);
    } else {
      var acc' := acc[c := acc[c][e.key := e.value]];
      LoadFromDescribed(rest, cur, acc');
      OverrideMoved(Entries(Body(rest)), acc[c], e.key, e.value);
    }
  }

  /** A line that is neither a header nor a pair that can be stored. */
  lemma {:induction false} OtherDescribed(ks: seq<LineKind>, cur: Option<string>, acc: Table)
    requires cur.Some? ==> cur.value in acc
    requires ks != [] && (ks[0].Other? || (ks[0].Pair? && cur.None?))
    ensures Described(ks, cur, acc, LoadFrom(ks, cur, acc))
    decreases |ks|, 0
  {
    var rest := ks[1..];
    assert Body(ks) == [ks[0]] + Body(rest);
    assert Headers(ks) == Headers(rest);
    assert forall s :: FirstBlock(ks, s) == FirstBlock(rest, s);
    if cur.Some? {
      assert Entries(Body(ks)) == Entries(Body(rest));
    }
    LoadFromDescribed(rest, cur, acc);
  }

  lemma OverrideShadowed(m: map<string, string>, base: map<string, string>, k: string, v: string)
    requires k in base
    ensures m[k := v] + base == m + base
  {
  }

  lemma OverrideMoved(m: map<string, string>, base: map<string, string>, k: string, v: string)
    requires k !in base
    ensures m + base[k := v] == m[k := v] + base
  {
  }

  /**
   * First occurrence wins: the loaded sections are exactly the header names of the file, and each
   * holds the pairs of the block under its first header only.
   */
  lemma LoadDescribed(lines: seq<string>)
    ensures Load(Some(lines)).Keys == Headers(KindsOf(lines))
    ensures forall s :: s in Headers(KindsOf(lines)) ==>
      Load(Some(lines))[s] == Entries(FirstBlock(KindsOf(lines), s))
  {
    LoadFromDescribed(KindsOf(lines), None, map[]);
  }

  /** Within a block the first line with a given key decides its value; later lines with it are ignored. */
  lemma {:induction false} EntriesFirstWins(before: seq<LineKind>, e: Entry, after: seq<LineKind>)
    requires forall i :: 0 <= i < |before| && before[i].Pair? ==> before[i].entry.key != e.key
    ensures e.key in Entries(before + [Pair(e)] + after)
    ensures Entries(before + [Pair(e)] + after)[e.key] == e.value
  {
    if before == [] {
      assert before + [Pair(e)] + after == [Pair(e)] + after;
    } else {
      assert (before + [Pair(e)] + after)[1..] == before[1..] + [Pair(e)] + after;
      assert forall i :: 0 <= i < |before[1..]| ==> before[1..][i] == before[i + 1];
      EntriesFirstWins(before[1..], e, after);
      assert before[0].Pair? ==> before[0].entry.key != e.key;
    }
  }

  /** A key is in a block's table exactly when some line of the block is a pair with that key. */
  lemma {:induction false} EntriesKeys(block: seq<LineKind>, k: string)
    ensures k in Entries(block) <==> exists i :: 0 <= i < |block| && block[i].Pair? && block[i].entry.key == k
  {
    if block != [] {
      EntriesKeys(block[1..], k);
      if k in Entries(block[1..]) {
        var i :| 0 <= i < |block[1..]| && block[1..][i].Pair? && block[1..][i].entry.key == k;
        assert block[i + 1] == block[1..][i];
      }
      if exists i :: 0 <= i < |block| && block[i].Pair? && block[i].entry.key == k {
        var i :| 0 <= i < |block| && block[i].Pair? && block[i].entry.key == k;
        if i > 0 {
          assert block[1..][i - 1] == block[i];
        }
      }
    }
  }

  /** Lines before the first header contribute nothing. */
  lemma LoadIgnoresPreamble(preamble: seq<string>, lines: seq<string>)
    requires forall i :: 0 <= i < |preamble| ==> !Classify(Trim(preamble[i])).Header?
    ensures Load(Some(preamble + lines)) == Load(Some(lines))
  {
    KindsAppend(preamble, lines);
    forall i | 0 <= i < |preamble| ensures !KindsOf(preamble)[i].Header? {
      KindsAt(preamble, i);
    }
    PreambleSkipped(KindsOf(preamble), KindsOf(lines), map[]);
  }

  lemma {:induction false} PreambleSkipped(preamble: seq<LineKind>, ks: seq<LineKind>, acc: Table)
    requires forall i :: 0 <= i < |preamble| ==> !preamble[i].Header?
    ensures LoadFrom(preamble + ks, None, acc) == LoadFrom(ks, None, acc)
  {
    if preamble != [] {
      assert !preamble[0].Header?;
      assert (preamble + ks)[1..] == preamble[1..] + ks;
      PreambleSkipped(preamble[1..], ks, acc);
    } else {
      assert preamble + ks == ks;
    }
  }
}
