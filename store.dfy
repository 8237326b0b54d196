/**
 * The INI store (`INIFile`): the sections loaded from the file, the overlay of values set since the
 * last load or flush, the section comments, and the modified flag. The file is a parameter of the
 * operations that read or write it: `None` when it does not exist, otherwise its lines.
 */
module Store {
  import opened Wrappers
  import opened Text
  import opened IniLine
  import opened Tables
  import opened Loading
  import opened CommentFormat
  import opened Codec
  import opened Patching
  import opened FlushWriter

  /** Which of the two tables a section query or edit addresses. */
  datatype StoreTarget = Original | Modified | BothStores

  /** Where a flush can fail: creating the temporary file, or copying it over the original. */
  datatype Fault = NoFault | TempCreateFails | SwapFails

  /** What a flush does to the file: nothing, a new content, or an exception. */
  datatype FlushResult = NotDirty | Written(lines: seq<string>) | Failed

  /** The `ArgumentException`s of the section operations, or success. */
  datatype Outcome = Ok | NamesEqual | InvalidNewName | InvalidOldName | InvalidSectionName | DuplicateSection | DuplicateComment

  /** `MergeDictionary`: a loop over the source sections, each added when the target lacks it. */
  method MergeDictionary(source: Table, target: Table) returns (r: Table)
    ensures r == Merge(source, target)
  {
    var names := EnumerateKeys(source);
    ghost var m := Merge(source, target);
    r := target;
    var i := 0;
    while i < |names|
      invariant 0 <= i <= |names|
      invariant forall x :: x in r <==> x in target || x in names[..i]
      invariant forall s :: s in r ==> r[s] == m[s]
    {
      assert names[..i + 1] == names[..i] + [names[i]];
      if names[i] !in r {
        r := r[names[i] := source[names[i]]];
      }
      i := i + 1;
    }
    assert names[..i] == names;
    assert r.Keys == m.Keys;
  }

  /** `list2` appended to `list`, skipping the elements `list` already has (the `BothStores` merge). */
  method AppendMissing(list: seq<string>, list2: seq<string>) returns (r: seq<string>)
    requires Distinct(list) && Distinct(list2)
    ensures |r| >= |list| && r[..|list|] == list
    ensures Distinct(r)
    ensures forall x :: x in r <==> x in list || x in list2
  {
    r := list;
    var i := 0;
    while i < |list2|
      invariant 0 <= i <= |list2|
      invariant |r| >= |list| && r[..|list|] == list
      invariant Distinct(r)
      invariant forall x :: x in r <==> x in list || x in list2[..i]
    {
      if list2[i] !in r {
        r := r + [list2[i]];
      }
      assert list2[..i + 1] == list2[..i] + [list2[i]];
      i := i + 1;
    }
    assert list2[..i] == list2;
  }

  class IniFile {
    /** `m_Sections`: the file as loaded, with every value set since. */
    var sections: Table
    /** `m_Modified`: the values set since the last load or flush, to be written by the next flush. */
    var modified: Table
    /** `m_Comments`: the comment text written under each section header. */
    var comments: map<string, string>
    /** `m_CacheModified`. */
    var dirty: bool

    /** The overlay is part of the sections table. */
    ghost predicate Consistent()
      reads this
    {
      Covers(sections, modified)
    }

    /** A store on `file`, loaded at once (the non-lazy constructor). */
    constructor(file: Option<seq<string>>)
      ensures sections == Load(file) && modified == map[]
      ensures comments == map[] && !dirty
      ensures Consistent()
    {
      sections, modified, comments, dirty := map[], map[], map[], false;
      new;
      Refresh(file);
    }

    /**
     * `Refresh`: both tables cleared, then the file loaded line by line; the first header of a section
     * and the first line of a key win. Comments and the modified flag are kept.
     */
    method Refresh(file: Option<seq<string>>)
      modifies this
      ensures sections == Load(file) && modified == map[]
      ensures comments == old(comments) && dirty == old(dirty)
      ensures Consistent()
    {
      sections := map[];
      modified := map[];
      if file.None? {
        return;
      }
      var lines := file.value;
      ghost var ks := KindsOf(lines);
      ghost var target := LoadFrom(ks, None, map[]);
      var cur: Option<string> := None;
      var i := 0;
      assert ks[i..] == ks;
      while i < |lines|
        invariant 0 <= i <= |lines|
        invariant cur.Some? ==> cur.value in sections
        invariant LoadFrom(ks[i..], cur, sections) == target
        invariant modified == map[] && comments == old(comments) && dirty == old(dirty)
      {
        var kind := ReadKind(lines, i);
        cur, sections := LoadLine(ks, i, kind, cur, sections);
        i := i + 1;
      }
      assert ks[i..] == [];
    }

    /** `GetValue`: the stored value, or the default when the section or the key is missing. */
    method GetValue(section: string, key: string, default: string) returns (r: string)
      ensures Lookup(sections, section, key).Some? ==> r == sections[section][key]
      ensures Lookup(sections, section, key).None? ==> r == default
    {
      if section !in sections {
        return default;
      }
      var bucket := sections[section];
      if key !in bucket {
        return default;
      }
      return bucket[key];
    }

    /**
     * `SetValue`: the value stored in the sections table and in the overlay, each section created
     * when missing, and the store marked modified.
     */
    method SetValue(section: string, key: string, value: string)
      modifies this
      ensures sections == WithValue(old(sections), section, key, value)
      ensures modified == WithValue(old(modified), section, key, value)
      ensures dirty && comments == old(comments)
      ensures Lookup(sections, section, key) == Some(value) && Lookup(modified, section, key) == Some(value)
      ensures old(Consistent()) ==> Consistent()
    {
      dirty := true;
      sections := PutValue(sections, section, key, value);
      modified := PutValue(modified, section, key, value);
      LookupWithValue(old(sections), section, key, value, section, key);
      LookupWithValue(old(modified), section, key, value, section, key);
      if old(Consistent()) {
        WithValueKeepsCover(old(sections), old(modified), section, key, value);
      }
    }

    /**
     * `ExchangeValue`: the stored value when there is one; otherwise the default, which is then set
     * exactly as `SetValue` would. Either way the entry exists afterwards and holds the result.
     */
    method ExchangeValue(section: string, key: string, default: string) returns (r: string)
      modifies this
      ensures Lookup(old(sections), section, key).Some? ==>
        r == old(sections)[section][key] && sections == old(sections) && modified == old(modified) && dirty == old(dirty)
      ensures Lookup(old(sections), section, key).None? ==>
        && r == default && dirty
        && sections == WithValue(old(sections), section, key, default)
        && modified == WithValue(old(modified), section, key, default)
      ensures Lookup(sections, section, key) == Some(r)
      ensures comments == old(comments)
      ensures old(Consistent()) ==> Consistent()
    {
      if section !in sections {
        SetValue(section, key, default);
        return default;
      }
      var bucket := sections[section];
      if key !in bucket {
        SetValue(section, key, default);
        return default;
      }
      return bucket[key];
    }

    // ------------------------------------------------------------------ typed values

    /** `GetValue` for `bool`: the text read as a 32-bit integer, true when not zero. */
    method GetBool(section: string, key: string, default: bool) returns (r: bool)
      ensures Lookup(sections, section, key).Some? ==> r == DecodeBool(sections[section][key], default)
      ensures Lookup(sections, section, key).None? ==> r == default
    {
      var text := GetValue(section, key, BoolText(default));
      if Lookup(sections, section, key).None? {
        BoolTextIsNoInteger(default, default);
      }
      r := DecodeBool(text, default);
    }

    /** `SetValue` for `bool`: `1` or `0`, which `GetBool` reads back. */
    method SetBool(section: string, key: string, value: bool)
      modifies this
      ensures sections == WithValue(old(sections), section, key, EncodeBool(value))
      ensures modified == WithValue(old(modified), section, key, EncodeBool(value))
      ensures dirty && comments == old(comments)
      ensures forall default :: DecodeBool(sections[section][key], default) == value
      ensures old(Consistent()) ==> Consistent()
    {
      SetValue(section, key, EncodeBool(value));
      forall default: bool ensures DecodeBool(sections[section][key], default) == value {
        BoolRoundTrip(value, default);
      }
    }

    /** `GetValue` for the integer types: the text parsed in the type's range, else the default. */
    method GetInteger(kind: IntKind, section: string, key: string, default: int) returns (r: int)
      requires kind.Holds(default)
      ensures kind.Holds(r)
      ensures Lookup(sections, section, key).Some? ==> r == DecodeInteger(kind, sections[section][key], default)
      ensures Lookup(sections, section, key).None? ==> r == default
    {
      var text := GetValue(section, key, FormatInteger(default));
      if Lookup(sections, section, key).None? {
        DecodeIntegerRoundTrip(kind, default, default);
      }
      r := DecodeInteger(kind, text, default);
    }

    /** `SetValue` for `int`, `long` and `ulong`: the decimal text, which `GetInteger` reads back. */
    method SetInteger(kind: IntKind, section: string, key: string, value: int)
      requires kind.Holds(value)
      modifies this
      ensures sections == WithValue(old(sections), section, key, FormatInteger(value))
      ensures modified == WithValue(old(modified), section, key, FormatInteger(value))
      ensures dirty && comments == old(comments)
      ensures forall default :: kind.Holds(default) ==> DecodeInteger(kind, sections[section][key], default) == value
      ensures old(Consistent()) ==> Consistent()
    {
      SetValue(section, key, FormatInteger(value));
      forall default | kind.Holds(default)
        ensures DecodeInteger(kind, sections[section][key], default) == value
      {
        DecodeIntegerRoundTrip(kind, value, default);
      }
    }

    /** `ExchangeValue` for `int`: the stored value when it parses, else the default, stored when missing. */
    method ExchangeInt32(section: string, key: string, default: int) returns (r: int)
      requires Int32.Holds(default)
      modifies this
      ensures Int32.Holds(r)
      ensures Lookup(old(sections), section, key).Some? ==>
        && r == DecodeInteger(Int32, old(sections)[section][key], default)
        && sections == old(sections) && modified == old(modified) && dirty == old(dirty)
      ensures Lookup(old(sections), section, key).None? ==>
        && r == default && dirty
        && sections == WithValue(old(sections), section, key, FormatInteger(default))
        && modified == WithValue(old(modified), section, key, FormatInteger(default))
      ensures comments == old(comments)
      ensures old(Consistent()) ==> Consistent()
    {
      var text := ExchangeValue(section, key, FormatInteger(default));
      if Lookup(old(sections), section, key).None? {
        DecodeIntegerRoundTrip(Int32, default, default);
      }
      r := DecodeInteger(Int32, text, default);
    }

    /**
     * `GetValue` for `byte[]`: the text decoded two hex digits per byte; text that does not decode
     * gives the default. A missing entry gives the default too, through its own encoding.
     */
    method GetBytes(section: string, key: string, default: seq<byte>) returns (r: seq<byte>)
      ensures Lookup(sections, section, key).Some? ==>
        r == match HexDecode(sections[section][key]) case Some(bs) => bs case None => default
      ensures Lookup(sections, section, key).None? ==> r == default
    {
      var fallback := EncodeByteArray(default);
      var text := GetValue(section, key, fallback);
      var decoded := DecodeByteArray(text);
      if Lookup(sections, section, key).None? {
        HexRoundTrip(default);
      }
      match decoded
      case Some(bs) => r := bs;
      case None => r := default;
    }

    /** `SetValue` for `byte[]`: two lower-case hex digits per byte, which `GetBytes` reads back. */
    method SetBytes(section: string, key: string, value: seq<byte>)
      modifies this
      ensures sections == WithValue(old(sections), section, key, HexString(value))
      ensures modified == WithValue(old(modified), section, key, HexString(value))
      ensures dirty && comments == old(comments)
      ensures HexDecode(sections[section][key]) == Some(value)
      ensures old(Consistent()) ==> Consistent()
    {
      var text := EncodeByteArray(value);
      SetValue(section, key, text);
      HexRoundTrip(value);
    }

    // ------------------------------------------------------------------ sections

    /** `SectionExists`. */
    function SectionExists(name: string, target: StoreTarget): (r: bool)
      reads this
      ensures r <==> (target != Modified && name in sections) || (target != Original && name in modified)
    {
      match target
      case Modified => name in modified
      case Original => name in sections
      case BothStores => name in sections || name in modified
    }

    /**
     * `GetSectionsNames`: the section names of the target table, each once; for both tables, those of
     * the sections table first, then the overlay's that are new.
     */
    method GetSectionsNames(target: StoreTarget) returns (names: seq<string>)
      ensures Distinct(names)
      ensures forall x :: x in names <==> SectionExists(x, target)
      ensures target == BothStores ==> |names| >= |sections| && IsEnumeration(names[..|sections|], sections.Keys)
    {
      match target
      case Original =>
        names := EnumerateKeys(sections);
      case Modified =>
        names := EnumerateKeys(modified);
      case BothStores =>
        var list := EnumerateKeys(sections);
        var list2 := EnumerateKeys(modified);
        EnumerationLength(list, sections.Keys);
        assert |sections.Keys| == |sections|;
        names := AppendMissing(list, list2);
    }

    /**
     * `GetKeysNames`: the keys of the section in the target table, each once; none when it is missing.
     * For both tables, the keys of the sections table come first.
     */
    method GetKeysNames(target: StoreTarget, section: string) returns (keys: seq<string>)
      ensures Distinct(keys)
      ensures forall k :: k in keys <==>
        (target != Modified && k in KeysOf(sections, section)) || (target != Original && k in KeysOf(modified, section))
      ensures target == BothStores ==>
        |keys| >= |KeysOf(sections, section)| && IsEnumeration(keys[..|KeysOf(sections, section)|], KeysOf(sections, section))
    {
      match target
      case Original =>
        keys := ReadSectionsKeys(sections, section);
      case Modified =>
        keys := ReadSectionsKeys(modified, section);
      case BothStores =>
        var list := ReadSectionsKeys(sections, section);
        var list2 := ReadSectionsKeys(modified, section);
        EnumerationLength(list, KeysOf(sections, section));
        keys := AppendMissing(list, list2);
    }

    /** `SectionDelete`: the section removed from the target tables. */
    method SectionDelete(name: string, target: StoreTarget)
      modifies this
      ensures sections == if target != Modified then old(sections) - {name} else old(sections)
      ensures modified == if target != Original then old(modified) - {name} else old(modified)
      ensures comments == old(comments) && dirty == old(dirty)
      ensures target == BothStores && old(Consistent()) ==> Consistent()
    {
      if target != Modified && name in sections {
        sections := sections - {name};
      }
      if target != Original && name in modified {
        modified := modified - {name};
      }
      if target == BothStores && old(Consistent()) {
        RemoveKeepsCover(old(sections), old(modified), name);
      }
    }

    /**
     * `SectionRename`: the argument checks in order, then the section moved to the new name in each
     * target table that has it. A table that already has the new name throws after the old name has
     * been removed from it; the overlay is then left as it was.
     */
    method SectionRename(oldName: string, newName: string, target: StoreTarget) returns (res: Outcome)
      modifies this
      ensures newName == oldName ==> res == NamesEqual
      ensures newName != oldName && newName == [] ==> res == InvalidNewName
      ensures newName != oldName && newName != [] && oldName == [] ==> res == InvalidOldName
      ensures res in {NamesEqual, InvalidNewName, InvalidOldName} ==>
        sections == old(sections) && modified == old(modified)
      ensures newName != oldName && newName != [] && oldName != [] ==>
        var movesSections := target != Modified && oldName in old(sections);
        var failsSections := movesSections && newName in old(sections);
        var movesOverlay := !failsSections && target != Original && oldName in old(modified);
        && (res == DuplicateSection <==> failsSections || (movesOverlay && newName in old(modified)))
        && (res != DuplicateSection ==> res == Ok)
        && sections == (if failsSections then old(sections) - {oldName}
                        else if movesSections then (old(sections) - {oldName})[newName := old(sections)[oldName]]
                        else old(sections))
        && modified == (if movesOverlay && newName in old(modified) then old(modified) - {oldName}
                        else if movesOverlay then (old(modified) - {oldName})[newName := old(modified)[oldName]]
                        else old(modified))
      ensures comments == old(comments) && dirty == old(dirty)
      ensures target == BothStores && res != DuplicateSection && old(Consistent()) ==> Consistent()
    {
      if newName == oldName {
        return NamesEqual;
      }
      if newName == [] {
        return InvalidNewName;
      }
      if oldName == [] {
        return InvalidOldName;
      }
      if target != Modified && oldName in sections {
        var dic := sections[oldName];
        sections := sections - {oldName};
        if newName in sections {
          return DuplicateSection;
        }
        sections := sections[newName := dic];
      }
      if target != Original && oldName in modified {
        var dic := modified[oldName];
        modified := modified - {oldName};
        if newName in modified {
          return DuplicateSection;
        }
        modified := modified[newName := dic];
      }
      if target == BothStores && old(Consistent()) {
        RenameKeepsCover(old(sections), old(modified), oldName, newName);
      }
      return Ok;
    }

    /** `SectionCreate`: an empty overlay section, unless either table has the name already. */
    method SectionCreate(name: string)
      modifies this
      ensures sections == old(sections) && comments == old(comments) && dirty == old(dirty)
      ensures modified == if old(SectionExists(name, BothStores)) then old(modified) else old(modified)[name := map[]]
      ensures SectionExists(name, BothStores)
      ensures old(Consistent()) ==> Consistent()
    {
      if SectionExists(name, BothStores) {
        return;
      }
      modified := modified[name := map[]];
    }

    /**
     * `SectionSetComment`: an empty name is refused and a missing comment ignored. An empty comment is
     * stored as `;`. Any other comment first creates the section, then is stored with `;` at the start
     * of each of its lines. A section that already has a comment makes the store throw.
     */
    method SectionSetComment(name: string, comment: Option<string>) returns (res: Outcome)
      modifies this
      ensures name == [] ==> res == InvalidSectionName
      ensures res == DuplicateComment <==> name != [] && comment.Some? && name in old(comments)
      ensures res != InvalidSectionName && res != DuplicateComment ==> res == Ok
      ensures sections == old(sections) && dirty == old(dirty)
      ensures modified == if name != [] && comment.Some? && comment.value != [] && !old(SectionExists(name, BothStores))
                          then old(modified)[name := map[]] else old(modified)
      ensures comments == if res == Ok && comment.Some? then old(comments)[name := StoredComment(comment.value)]
                          else old(comments)
      ensures res == Ok && comment.Some? ==> comments[name][0] == ';' && EveryLineMarked(comments[name])
      ensures old(Consistent()) ==> Consistent()
    {
      if name == [] {
        return InvalidSectionName;
      }
      if comment.None? {
        return Ok;
      }
      var c := comment.value;
      if c == [] {
        if name in comments {
          return DuplicateComment;
        }
        comments := comments[name := ";"];
        return Ok;
      }
      SectionCreate(name);
      var text := FormatComment(c);
      if name in comments {
        return DuplicateComment;
      }
      CommentedMarked(c);
      comments := comments[name := text];
      return Ok;
    }

    // ------------------------------------------------------------------ flushing

    /**
     * `PerformFlush`: nothing when the store is not modified. Otherwise the flag is cleared first; a
     * failure to create the temporary file stops there. A patch flush copies the original file (when
     * it exists) with the overlay put in place and appends new blocks for the overlay sections left; a
     * rebuild writes every section of the sections table merged with the overlay, and leaves each of
     * them empty. Either way the overlay is emptied, even when the final copy over the original fails.
     */
    method PerformFlush(rebuild: bool, file: Option<seq<string>>, fault: Fault)
      returns (res: FlushResult, ghost pieces: seq<Piece>, ghost order: seq<string>, ghost orders: seq<seq<string>>)
      modifies this
      ensures !dirty && comments == old(comments)
      ensures !old(dirty) ==> res == NotDirty && sections == old(sections) && modified == old(modified)
      ensures old(dirty) && fault == TempCreateFails ==>
        res == Failed && sections == old(sections) && modified == old(modified)
      ensures old(dirty) && fault != TempCreateFails ==>
        && modified == map[]
        && Fits(pieces, orders)
        && res == (if fault == SwapFails then Failed else Written(Render(pieces, orders)))
      ensures old(dirty) && fault != TempCreateFails && rebuild ==>
        var t := Merge(old(modified), old(sections));
        && sections == Emptied(t)
        && IsEnumeration(order, t.Keys)
        && pieces == Blocks(order, t, comments, true)
      ensures old(dirty) && fault != TempCreateFails && !rebuild ==>
        var scan := Scanned(file, old(modified), comments);
        && sections == old(sections)
        && IsEnumeration(order, scan.next.rest.Keys)
        && pieces == scan.pieces + Blocks(order, scan.next.rest, comments, true)
    {
      pieces, order, orders := [], [], [];
      if !dirty {
        return NotDirty, pieces, order, orders;
      }
      dirty := false;
      if fault == TempCreateFails {
        return Failed, pieces, order, orders;
      }
      var out: seq<string>;
      if rebuild {
        out, sections, pieces, order, orders := RebuildContent(sections, modified, comments);
      } else {
        out, pieces, order, orders := PatchContent(file, modified, comments);
      }
      modified := map[];
      if fault == SwapFails {
        return Failed, pieces, order, orders;
      }
      return Written(out), pieces, order, orders;
    }
  }

  /**
   * The content of a patch flush: the original lines (when the file exists) with the overlay put in
   * place, then blocks for the overlay sections left over.
   */
  method PatchContent(file: Option<seq<string>>, overlay: Table, comments: map<string, string>)
    returns (out: seq<string>, ghost pieces: seq<Piece>, ghost order: seq<string>, ghost orders: seq<seq<string>>)
    ensures var scan := Scanned(file, overlay, comments);
      && IsEnumeration(order, scan.next.rest.Keys)
      && pieces == scan.pieces + Blocks(order, scan.next.rest, comments, true)
    ensures Fits(pieces, orders) && out == Render(pieces, orders)
  {
    var rest := overlay;
    out, pieces, orders := [], [], [];
    if file.Some? {
      out, rest, orders := CopyLines(file.value, overlay, comments);
      pieces := Scanned(file, overlay, comments).pieces;
    }
    var blocks, ss, bos := WriteBlocks(rest, comments);
    Emit(pieces, orders, Blocks(ss, rest, comments, true), bos);
    out, pieces, order, orders := out + blocks, pieces + Blocks(ss, rest, comments, true), ss, orders + bos;
  }

  /**
   * The content of a rebuild flush: the overlay sections the sections table lacks are merged into it,
   * every section with keys is written as a block, and every section is left empty.
   */
  method RebuildContent(sections: Table, overlay: Table, comments: map<string, string>)
    returns (out: seq<string>, sections': Table, ghost pieces: seq<Piece>, ghost order: seq<string>, ghost orders: seq<seq<string>>)
    ensures var t := Merge(overlay, sections);
      && sections' == Emptied(t)
      && IsEnumeration(order, t.Keys)
      && pieces == Blocks(order, t, comments, true)
    ensures Fits(pieces, orders) && out == Render(pieces, orders)
  {
    var t := MergeDictionary(overlay, sections);
    out, order, orders := WriteBlocks(t, comments);
    pieces := Blocks(order, t, comments, true);
    sections' := Emptied(t);
  }

  /**
   * One line of the load loop: a header of a new section opens it, a repeated header closes the
   * current section, and a pair is added to the current section unless it has the key already.
   */
  method LoadLine(ghost ks: seq<LineKind>, ghost i: nat, kind: LineKind, cur: Option<string>, acc: Table)
    returns (cur': Option<string>, acc': Table)
    requires i < |ks| && ks[i] == kind
    requires cur.Some? ==> cur.value in acc
    ensures cur'.Some? ==> cur'.value in acc'
    ensures LoadFrom(ks[i..], cur, acc) == LoadFrom(ks[i + 1..], cur', acc')
  {
    LoadAt(ks, i, cur, acc);
    cur', acc' := cur, acc;
    match kind {
      case Header(name) =>
        if name in acc {
          cur' := None;
        } else {
          acc' := acc[name := map[]];
          cur' := Some(name);
        }
      case Pair(e) =>
        if cur.Some? && e.key !in acc[cur.value] {
          acc' := acc[cur.value := acc[cur.value][e.key := e.value]];
        }
      case Other =>
    }
  }

  /**
   * One table of `SetValue`: the section's bucket looked up, created when missing, and the key
   * removed if present before it is added with the new value.
   */
  method PutValue(t: Table, section: string, key: string, value: string) returns (t': Table)
    ensures t' == WithValue(t, section, key, value)
  {
    var bucket := if section in t then t[section] else map[];
    if key in bucket {
      RemoveThenAdd(bucket, key, value);
      bucket := bucket - {key};
    }
    t' := t[section := bucket[key := value]];
  }

  /** The classification of line `i`, as the load loop computes it. */
  method ReadKind(lines: seq<string>, i: nat) returns (kind: LineKind)
    requires i < |lines|
    ensures kind == KindsOf(lines)[i]
  {
    var s := Trim(lines[i]);
    kind := Classify(s);
    KindsAt(lines, i);
  }

  /** `ReadSectionsKeys`: the keys of a section, each once; none for a missing section. */
  method ReadSectionsKeys(t: Table, section: string) returns (keys: seq<string>)
    ensures IsEnumeration(keys, KeysOf(t, section))
  {
    if section !in t {
      return [];
    }
    keys := EnumerateKeys(t[section]);
  }

  /** An enumeration is as long as the set it enumerates. */
  lemma EnumerationLength(ks: seq<string>, s: set<string>)
    requires IsEnumeration(ks, s)
    ensures |ks| == |s|
    ensures ks[..|s|] == ks
  {
    DistinctCard(ks);
    assert (set x | x in ks) == s;
  }

  lemma {:induction false} DistinctCard(ks: seq<string>)
    requires Distinct(ks)
    ensures |set x | x in ks| == |ks|
  {
    if ks != [] {
      var t := ks[1..];
      assert Distinct(t) by {
        forall i, j | 0 <= i < j < |t| ensures t[i] != t[j] {
          assert t[i] == ks[i + 1] && t[j] == ks[j + 1];
        }
      }
      DistinctCard(t);
      assert ks[0] !in t by {
        forall i | 0 <= i < |t| ensures t[i] != ks[0] {
          assert t[i] == ks[i + 1];
        }
      }
      assert (set x | x in ks) == {ks[0]} + (set x | x in t);
    }
  }

  /** The load pass from line `i` starts with line `i` and goes on from line `i + 1`. */
  lemma LoadAt(ks: seq<LineKind>, i: nat, cur: Option<string>, acc: Table)
    requires i < |ks|
    ensures ks[i..] != [] && ks[i..][0] == ks[i] && ks[i..][1..] == ks[i + 1..]
  {
  }
  /**
   * The cover holds only while deletes and renames target both stores: deleting a section from
   * `sections` alone leaves its overlay values behind, in no section of `sections`.
   */
  method DeleteOriginalUncovers() returns (st: IniFile)
    ensures Lookup(st.modified, "S", "k") == Some("v") && Lookup(st.sections, "S", "k").None?
    ensures !st.Consistent()
  {
    st := new IniFile(None);
    st.SetValue("S", "k", "v");
    st.SectionDelete("S", Original);
  }

  /**
   * A rename in the overlay alone can move an overlay bucket onto a name whose `sections` bucket
   * differs; the merge of a rebuild then keeps the `sections` bucket, so the overlay value is not
   * written.
   */
  method RenameOverlayShadowed() returns (st: IniFile)
    ensures Lookup(st.modified, "B", "k") == Some("v")
    ensures Lookup(Merge(st.modified, st.sections), "B", "k").None?
    ensures !st.Consistent()
  {
    st := new IniFile(None);
    st.SetValue("A", "k", "v");
    st.SetValue("B", "x", "1");
    st.SectionDelete("B", Modified);
    var res := st.SectionRename("A", "B", Modified);
  }
  /**
   * A rename in both stores onto a name `sections` already has throws after the old name has left
   * `sections`, while the overlay keeps it: the cover is broken here too.
   */
  method RenameClashUncovers() returns (st: IniFile, res: Outcome)
    ensures res == DuplicateSection
    ensures Lookup(st.modified, "A", "k") == Some("v") && Lookup(st.sections, "A", "k").None?
    ensures !st.Consistent()
  {
    st := new IniFile(None);
    st.SetValue("A", "k", "v");
    st.SetValue("B", "x", "1");
    res := st.SectionRename("A", "B", BothStores);
  }
}
