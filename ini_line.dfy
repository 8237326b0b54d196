/**
 * The line parser of the INI store: a trimmed line is a section header `[name]`,
 * a `key=value` pair, or neither (blank, comment or malformed line).
 */
module IniLine {
  import opened Wrappers
  import opened Text
  import opened LineBreaks

  /** A table of sections, each a table of keys to values (both `m_Sections` and `m_Modified` have this shape). */
  type Table = map<string, map<string, string>>

  /** One key/value pair as read from, or written to, a line. */
  datatype Entry = Entry(key: string, value: string)

  /**
   * `ParseSectionName`: a header is a line of at least three characters that starts with `[` and
   * ends with `]`; the name is what lies between the brackets, so it is never empty.
   */
  function ParseSectionName(line: string): (r: Option<string>)
    ensures r.Some? <==> |line| >= 3 && line[0] == '[' && line[|line| - 1] == ']'
    ensures r.Some? ==> r.value == line[1..|line| - 1] && |r.value| >= 1
  {
    if |line| == 0 || line[0] != '[' then None
    else if line[|line| - 1] != ']' then None
    else if |line| < 3 then None
    else Some(line[1..|line| - 1])
  }

  /**
   * `ParseKeyValuePair`: the line splits at its FIRST `=`; it fails when there is none, when the
   * `=` is the first character, or when the key trims to nothing. The key is the trimmed text before
   * the `=`, the value the trimmed text after it (empty when nothing follows), so any later `=`
   * belongs to the value.
   */
  function ParseKeyValuePair(line: string): (r: Option<Entry>)
    ensures r.Some? <==> '=' in line && IndexOf(line, '=') > 0 && Trim(line[..IndexOf(line, '=')]) != []
    ensures r.Some? ==>
      var i := IndexOf(line, '=');
      && r.value.key == Trim(line[..i])
      && r.value.value == Trim(line[i + 1..])
      && r.value.key != [] && '=' !in r.value.key
  {
    var i := IndexOf(line, '=');
    if i <= 0 then None
    else
      var j := |line| - i - 1;
      var key := Trim(line[..i]);
      if |key| <= 0 then None
      else
        TrimChars(line[..i], '=');
        var value := if j > 0 then Trim(line[i + 1..]) else "";
        Some(Entry(key, value))
  }

  /** What a trimmed line is to the load pass and to the patch flush, which test for a header first. */
  datatype LineKind = Header(name: string) | Pair(entry: Entry) | Other

  /** `ParseSectionName`, then, for a line that is no header, `ParseKeyValuePair`. */
  function Classify(line: string): LineKind
  {
    match ParseSectionName(line)
    case Some(name) => Header(name)
    case None =>
      match ParseKeyValuePair(line)
      case Some(e) => Pair(e)
      case None => Other
  }

  /** The line the flush writes for a section header. */
  function HeaderLine(name: string): string
  {
    "[" + name + "]"
  }

  /** The line the flush writes for a key/value pair. */
  function KeyLine(key: string, value: string): string
  {
    key + "=" + value
  }

  /** A section name that survives a write and a re-read unchanged: not empty, and one line. */
  predicate IsPlainName(name: string)
  {
    name != [] && NoBreak(name)
  }

  /**
   * A key/value pair that survives a write and a re-read unchanged: a key that is not empty, does not
   * start with `[`, holds no `=`, and both key and value free of line breaks and of white space at
   * either end.
   */
  predicate IsPlainEntry(key: string, value: string)
  {
    key != [] && key[0] != '[' && IsTrimmed(key) && '=' !in key && IsTrimmed(value) && NoBreak(key) && NoBreak(value)
  }

  /** A written header reads back as the same section name (brackets are not white space). */
  lemma HeaderLineParses(name: string)
    requires name != []
    ensures Trim(HeaderLine(name)) == HeaderLine(name)
    ensures ParseSectionName(Trim(HeaderLine(name))) == Some(name)
  {
    var h := HeaderLine(name);
    assert h[0] == '[' && h[|h| - 1] == ']';
    TrimOfTrimmed(h);
    assert h[1..|h| - 1] == name;
  }

  /** The first `=` of a written key line is the one after the key. */
  lemma KeyLineIndex(key: string, value: string)
    requires '=' !in key
    ensures IndexOf(KeyLine(key, value), '=') == |key|
    ensures KeyLine(key, value)[..|key|] == key
    ensures KeyLine(key, value)[|key| + 1..] == value
  {
    var l := KeyLine(key, value);
    assert l[..|key|] == key;
    assert l[|key|] == '=';
    assert '=' in l[..|key| + 1];
    assert l[|key| + 1..] == value;
  }

  /** A written key line is never a header and reads back as the same pair. */
  lemma KeyLineParses(key: string, value: string)
    requires IsPlainEntry(key, value)
    ensures Trim(KeyLine(key, value)) == KeyLine(key, value)
    ensures ParseSectionName(Trim(KeyLine(key, value))).None?
    ensures ParseKeyValuePair(Trim(KeyLine(key, value))) == Some(Entry(key, value))
  {
    var l := KeyLine(key, value);
    assert l[0] == key[0];
    assert l[|l| - 1] == if value == [] then '=' else value[|value| - 1];
    TrimOfTrimmed(l);
    KeyLineIndex(key, value);
    TrimOfTrimmed(key);
    TrimOfTrimmed(value);
  }

  /** A line starting with `;` is never a header. */
  lemma CommentIsNoHeader(line: string)
    requires line != [] && line[0] == ';'
    ensures ParseSectionName(Trim(line)).None?
  {
    assert !IsWhiteSpace(line[0]);
    assert TrimStart(line) == line;
    var t := Trim(line);
    if t != [] {
      assert t[0] == line[0];
    }
  }

  /** A line without `=` is never a key/value pair. */
  lemma NoEqualsNoEntry(line: string)
    requires '=' !in line
    ensures ParseKeyValuePair(Trim(line)).None?
  {
    TrimChars(line, '=');
  }

  /** The blank line the flush writes between blocks is inert. */
  lemma BlankLineInert()
    ensures Trim("") == ""
    ensures ParseSectionName(Trim("")).None? && ParseKeyValuePair(Trim("")).None?
  {
  }
}
