/**
 * The two-level dictionaries of the store (`m_Sections`, `m_Modified`) as values: looking a value up,
 * putting one in, the keys of a section, and the relation the overlay keeps with the sections table.
 */
module Tables {
  import opened Wrappers
  import opened IniLine

  /** The value of key `k` in section `s`, if both exist (`TryGetValue` twice). */
  function Lookup(t: Table, s: string, k: string): (r: Option<string>)
    ensures r.Some? <==> s in t && k in t[s]
    ensures r.Some? ==> r.value == t[s][k]
  {
    if s in t && k in t[s] then Some(t[s][k]) else None
  }

  /** Key `k` of section `s` set to `v`, the section added first when it is missing. */
  function WithValue(t: Table, s: string, k: string, v: string): Table
  {
    t[s := (if s in t then t[s] else map[])[k := v]]
  }

  /** After a put, the entry holds the new value and every other entry is as before. */
  lemma LookupWithValue(t: Table, s: string, k: string, v: string, s': string, k': string)
    ensures Lookup(WithValue(t, s, k, v), s', k') == if s' == s && k' == k then Some(v) else Lookup(t, s', k')
  {
  }

  /** A put adds at most the one section; no section disappears. */
  lemma WithValueSections(t: Table, s: string, k: string, v: string)
    ensures WithValue(t, s, k, v).Keys == t.Keys + {s}
  {
  }

  /** The keys of section `s`, none when the section is missing. */
  function KeysOf(t: Table, s: string): (r: set<string>)
    ensures s !in t ==> r == {}
    ensures forall k :: k in r <==> Lookup(t, s, k).Some?
  {
    if s in t then t[s].Keys else {}
  }

  /** Every entry of the overlay is also in the sections table, with the same value. */
  ghost predicate Covers(sections: Table, overlay: Table)
  {
    forall s, k :: Lookup(overlay, s, k).Some? ==> Lookup(sections, s, k) == Lookup(overlay, s, k)
  }

  /** Putting the same entry into both tables keeps the cover. */
  lemma WithValueKeepsCover(sections: Table, overlay: Table, s: string, k: string, v: string)
    requires Covers(sections, overlay)
    ensures Covers(WithValue(sections, s, k, v), WithValue(overlay, s, k, v))
  {
    forall s', k' | Lookup(WithValue(overlay, s, k, v), s', k').Some?
      ensures Lookup(WithValue(sections, s, k, v), s', k') == Lookup(WithValue(overlay, s, k, v), s', k')
    {
      LookupWithValue(sections, s, k, v, s', k');
      LookupWithValue(overlay, s, k, v, s', k');
    }
  }

  /** `MergeDictionary`: the sections of `source` that `target` lacks are added; existing ones are kept. */
  function Merge(source: Table, target: Table): (r: Table)
    ensures r.Keys == source.Keys + target.Keys
    ensures forall s :: s in target ==> r[s] == target[s]
    ensures forall s :: s in source && s !in target ==> r[s] == source[s]
  {
    map s | s in source.Keys + target.Keys :: if s in target then target[s] else source[s]
  }

  /** Every section of `t` kept, with its keys removed (what `Clear` on each bucket leaves). */
  function Emptied(t: Table): (r: Table)
    ensures r.Keys == t.Keys
    ensures forall s :: s in r ==> r[s] == map[]
  {
    map s | s in t :: map[]
  }

  /**
   * When the overlay is covered, the rebuild table holds every overlay entry with its overlay value,
   * and every entry of the sections table unchanged.
   */
  lemma MergeKeepsEntries(overlay: Table, sections: Table, s: string, k: string)
    requires Covers(sections, overlay)
    ensures Lookup(overlay, s, k).Some? ==> Lookup(Merge(overlay, sections), s, k) == Lookup(overlay, s, k)
    ensures Lookup(sections, s, k).Some? ==> Lookup(Merge(overlay, sections), s, k) == Lookup(sections, s, k)
  {
  }

  lemma RemoveThenAdd(m: map<string, string>, k: string, v: string)
    ensures (m - {k})[k := v] == m[k := v]
  {
  }

  /** Removing a section from both tables keeps the cover. */
  lemma RemoveKeepsCover(sections: Table, overlay: Table, name: string)
    requires Covers(sections, overlay)
    ensures Covers(sections - {name}, overlay - {name})
  {
    forall s, k | Lookup(overlay - {name}, s, k).Some?
      ensures Lookup(sections - {name}, s, k) == Lookup(overlay - {name}, s, k)
    {
      assert Lookup(overlay, s, k).Some?;
    }
  }
  /** Section `o` of `t` moved to the name `n`; `t` itself when it has no section `o`. */
  function Renamed(t: Table, o: string, n: string): (r: Table)
    ensures o in t ==> r.Keys == t.Keys - {o} + {n} && r[n] == t[o]
    ensures o !in t ==> r == t
    ensures forall s :: s in t && s != o && s != n ==> s in r && r[s] == t[s]
  {
    if o in t then (t - {o})[n := t[o]] else t
  }

  /** Renaming a section in both tables, with the new name free in each, keeps the cover. */
  lemma RenameKeepsCover(sections: Table, overlay: Table, o: string, n: string)
    requires Covers(sections, overlay) && o != n
    requires o in sections ==> n !in sections
    requires o in overlay ==> n !in overlay
    ensures Covers(Renamed(sections, o, n), Renamed(overlay, o, n))
  {
    var s', o' := Renamed(sections, o, n), Renamed(overlay, o, n);
    forall s, k | Lookup(o', s, k).Some?
      ensures Lookup(s', s, k) == Lookup(o', s, k)
    {
      if s == n && o in overlay {
        assert Lookup(overlay, o, k).Some?;
      } else if s == n {
        assert Lookup(overlay, n, k).Some?;
      } else {
        assert Lookup(overlay, s, k).Some?;
      }
    }
  }
}
