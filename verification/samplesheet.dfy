/** The sectioned sample-sheet parser: one forward scan over the file's lines
    that groups the non-blank ones under `[Name]` headers and turns each group
    into either a key/value section or a comma-separated table. */
module SampleSheet {
  import opened Wrappers
  import opened Text

  /** One record of a table section: column header to cell. A column whose cell
      is missing from a short line is absent from the record. */
  type Row = map<string, string>

  datatype Section = KV(entries: map<string, string>) | Table(rows: seq<Row>)

  /** Section name to section content. */
  type Document = map<string, Section>

  /* ---------------------------------------------------------------------- */
  /* Section headers                                                          */
  /* ---------------------------------------------------------------------- */

  /** A trimmed line is a header when it starts with `[` and contains a `]`. */
  predicate IsHeader(line: string) {
    StartsWith(line, "[") && ']' in line
  }

  /** The header's name: the text before the first comma with every leading
      and trailing bracket removed, so that `[Header],,` names `Header`. */
  function HeaderName(line: string): string {
    Strip(Before(line, ','), IsBracket)
  }

  /** A header's name holds no comma and neither starts nor ends with a bracket. */
  lemma HeaderNameShape(line: string)
    ensures var name := HeaderName(line);
            && ',' !in name
            && (name == [] || (!IsBracket(name[0]) && !IsBracket(name[|name| - 1])))
  {
    var raw := Before(line, ',');
    var name := HeaderName(line);
    BeforeSpec(line, ',');
    StripShape(raw, IsBracket);
    var k := |raw| - |TrimLeft(raw, IsBracket)|;
    forall i | 0 <= i < |name| ensures name[i] != ',' {
      assert name[i] == raw[k + i];
    }
  }

  /** Stripping brackets from the left of `[name]` leaves `name]`. */
  lemma TrimLeftBracketed(name: string)
    requires name == [] || !IsBracket(name[0])
    ensures TrimLeft("[" + name + "]", IsBracket) == (if name == [] then [] else name + "]")
  {
    var s := "[" + name + "]";
    assert s[1..] == name + "]";
    if name == [] {
      assert s[1..][1..] == [];
    }
  }

  /** Stripping brackets from the right of `name]` leaves `name`. */
  lemma TrimRightBracketed(name: string)
    requires name == [] || !IsBracket(name[|name| - 1])
    ensures TrimRight(name + "]", IsBracket) == name
  {
    assert (name + "]")[..|name|] == name;
  }

  /** Writing a header for a name and reading its name back gives that name,
      whatever padding follows a comma after the closing bracket. */
  lemma HeaderNameRoundTrip(name: string, padding: string)
    requires ',' !in name
    requires name == [] || (!IsBracket(name[0]) && !IsBracket(name[|name| - 1]))
    requires padding == [] || padding[0] == ','
    ensures IsHeader("[" + name + "]" + padding)
    ensures HeaderName("[" + name + "]" + padding) == name
  {
    var bracketed := "[" + name + "]";
    var line := bracketed + padding;
    assert IsHeader(line) by {
      assert line[|bracketed| - 1] == ']';
      assert line[..1] == "[";
    }
    assert Before(line, ',') == bracketed by {
      if padding != [] {
        assert line == bracketed + [','] + padding[1..];
        FirstIndexAfter(bracketed, ',', padding[1..]);
        assert line[..|bracketed|] == bracketed;
      } else {
        FirstIndexSpec(bracketed, ',');
        assert line == bracketed;
      }
    }
    assert Strip(bracketed, IsBracket) == name by {
      TrimLeftBracketed(name);
      if name != [] {
        TrimRightBracketed(name);
      }
    }
  }

  /** The example `[Foo],junk` names the section `Foo`. */
  lemma HeaderWithJunkNamesFoo()
    ensures IsHeader("[Foo],junk")
    ensures HeaderName("[Foo],junk") == "Foo"
  {
    HeaderNameRoundTrip("Foo", ",junk");
    assert "[" + "Foo" + "]" + ",junk" == "[Foo],junk";
  }

  /* ---------------------------------------------------------------------- */
  /* Key/value sections                                                       */
  /* ---------------------------------------------------------------------- */

  /** The key and value one line contributes: split at the first comma only,
      both sides trimmed, and an empty value when there is no comma. */
  function KvEntry(line: string): (string, string) {
    var parts := SplitOnce(line, ',');
    var key := Trim(parts[0]);
    var value := if |parts| > 1 then Trim(parts[1]) else "";
    (key, value)
  }

  /** A line without a comma is a key with an empty value. */
  lemma KvEntryWithoutComma(line: string)
    requires ',' !in line
    ensures KvEntry(line) == (Trim(line), "")
  {
    FirstIndexSpec(line, ',');
  }

  /** A line splits at its first comma: later commas stay in the value. */
  lemma KvEntrySplitsAtFirstComma(key: string, value: string)
    requires ',' !in key
    ensures KvEntry(key + "," + value) == (Trim(key), Trim(value))
  {
    var line := key + "," + value;
    assert line == key + [','] + value;
    FirstIndexAfter(key, ',', value);
    assert line[..|key|] == key;
    assert line[|key| + 1..] == value;
  }

  /** No later pair of `pairs` carries the same key as pair `i`. */
  predicate LastPairAt<K(==), V>(pairs: seq<(K, V)>, i: int)
    requires 0 <= i < |pairs|
  {
    forall j :: i < j < |pairs| ==> pairs[j].0 != pairs[i].0
  }

  /** The dictionary built by assigning the pairs in order, a later assignment
      to a key replacing an earlier one. */
  function Assign<K, V>(pairs: seq<(K, V)>): (m: map<K, V>)
    ensures pairs == [] ==> m == map[]
  {
    if |pairs| == 0 then map[]
    else
      var last := pairs[|pairs| - 1];
      Assign(pairs[..|pairs| - 1])[last.0 := last.1]
  }

  /** The keys of an assigned dictionary are exactly the pairs' keys. */
  lemma {:induction false} AssignKeys<K, V>(pairs: seq<(K, V)>)
    ensures forall k :: k in Assign(pairs) <==> exists i :: 0 <= i < |pairs| && pairs[i].0 == k
  {
    if |pairs| > 0 {
      var n := |pairs| - 1;
      var init := pairs[..n];
      AssignKeys(init);
      var m := Assign(pairs);
      var earlier := Assign(init);
      assert m == earlier[pairs[n].0 := pairs[n].1];
      forall k ensures k in m <==> exists i :: 0 <= i < |pairs| && pairs[i].0 == k {
        if k == pairs[n].0 {
          assert 0 <= n < |pairs| && pairs[n].0 == k;
        } else if k in earlier {
          var i :| 0 <= i < |init| && init[i].0 == k;
          assert 0 <= i < |pairs| && pairs[i].0 == k;
        } else {
          forall i | 0 <= i < |pairs| ensures pairs[i].0 != k {
            if i < n {
              assert init[i] == pairs[i];
            }
          }
        }
      }
    }
  }

  /** Each key of an assigned dictionary holds the value of the last pair
      carrying it. */
  lemma {:induction false} AssignValues<K, V>(pairs: seq<(K, V)>)
    ensures forall i :: 0 <= i < |pairs| && LastPairAt(pairs, i) ==>
              pairs[i].0 in Assign(pairs) && Assign(pairs)[pairs[i].0] == pairs[i].1
  {
    if |pairs| > 0 {
      var n := |pairs| - 1;
      var init := pairs[..n];
      AssignValues(init);
      var m := Assign(pairs);
      var earlier := Assign(init);
      assert m == earlier[pairs[n].0 := pairs[n].1];
      forall i | 0 <= i < |pairs| && LastPairAt(pairs, i)
        ensures pairs[i].0 in m && m[pairs[i].0] == pairs[i].1
      {
        if i < n {
          assert init[i] == pairs[i];
          assert LastPairAt(init, i) by {
            forall j | i < j < |init| ensures init[j].0 != init[i].0 {
              assert init[j] == pairs[j];
            }
          }
          assert pairs[n].0 != pairs[i].0;
        }
      }
    }
  }

  /** The key/value pair each buffered line gives, in order. */
  function KvPairs(lines: seq<string>): (pairs: seq<(string, string)>)
    ensures |pairs| == |lines|
  {
    seq(|lines|, i requires 0 <= i < |lines| => KvEntry(lines[i]))
  }

  /** The key/value section of the buffered lines: each line's key is assigned
      its value, in order, a later line replacing an earlier one's value. */
  function ProcessKvSection(lines: seq<string>): (entries: map<string, string>)
    ensures lines == [] ==> entries == map[]
  {
    Assign(KvPairs(lines))
  }

  /** No later line gives the same key as line `i`. */
  predicate LastKeyAt(lines: seq<string>, i: int)
    requires 0 <= i < |lines|
  {
    forall j :: i < j < |lines| ==> KvEntry(lines[j]).0 != KvEntry(lines[i]).0
  }

  /** The key/value section's keys are exactly the keys its lines give. */
  lemma KvSectionKeys(lines: seq<string>)
    ensures forall k :: k in ProcessKvSection(lines) <==>
              exists i :: 0 <= i < |lines| && KvEntry(lines[i]).0 == k
  {
    var pairs := KvPairs(lines);
    AssignKeys(pairs);
    forall k ensures k in ProcessKvSection(lines) <==>
                     exists i :: 0 <= i < |lines| && KvEntry(lines[i]).0 == k
    {
      if k in ProcessKvSection(lines) {
        var i :| 0 <= i < |pairs| && pairs[i].0 == k;
        assert pairs[i] == KvEntry(lines[i]);
      }
      if exists i :: 0 <= i < |lines| && KvEntry(lines[i]).0 == k {
        var i :| 0 <= i < |lines| && KvEntry(lines[i]).0 == k;
        assert pairs[i] == KvEntry(lines[i]);
      }
    }
  }

  /** Each key of the key/value section holds the value of the last line
      giving that key: a later duplicate overwrites an earlier one. */
  lemma KvSectionValues(lines: seq<string>)
    ensures forall i :: 0 <= i < |lines| && LastKeyAt(lines, i) ==>
              KvEntry(lines[i]).0 in ProcessKvSection(lines)
              && ProcessKvSection(lines)[KvEntry(lines[i]).0] == KvEntry(lines[i]).1
  {
    var pairs := KvPairs(lines);
    AssignValues(pairs);
    forall i | 0 <= i < |lines| && LastKeyAt(lines, i)
      ensures KvEntry(lines[i]).0 in ProcessKvSection(lines)
              && ProcessKvSection(lines)[KvEntry(lines[i]).0] == KvEntry(lines[i]).1
    {
      assert pairs[i] == KvEntry(lines[i]);
      assert LastPairAt(pairs, i) by {
        forall j | i < j < |pairs| ensures pairs[j].0 != pairs[i].0 {
          assert pairs[j] == KvEntry(lines[j]);
        }
      }
    }
  }

  /* ---------------------------------------------------------------------- */
  /* Table sections                                                           */
  /* ---------------------------------------------------------------------- */

  /** Position `i` is the last position of `header` holding its column name. */
  predicate LastColumnAt(header: seq<string>, i: int)
    requires 0 <= i < |header|
  {
    forall j :: i < j < |header| ==> header[j] != header[i]
  }

  /** One record as a dictionary reader builds it, column by column: a column
      within the line takes the cell at its position, a column past the last
      cell is dropped (Python fills it with `None`). */
  function MakeRow(header: seq<string>, cells: seq<string>): (row: Row)
    ensures header == [] ==> row == map[]
  {
    if |header| == 0 then map[]
    else
      var i := |header| - 1;
      var earlier := MakeRow(header[..i], cells);
      if i < |cells| then earlier[header[i] := cells[i]] else earlier - {header[i]}
  }

  /** A record's columns all come from the header. */
  lemma {:induction false} MakeRowKeys(header: seq<string>, cells: seq<string>)
    ensures forall k :: k in MakeRow(header, cells) ==> k in header
  {
    if |header| > 0 {
      var n := |header| - 1;
      var init := header[..n];
      MakeRowKeys(init, cells);
      var row := MakeRow(header, cells);
      var earlier := MakeRow(init, cells);
      assert row == if n < |cells| then earlier[header[n] := cells[n]] else earlier - {header[n]};
      forall k | k in row ensures k in header {
        if k != header[n] {
          assert k in init;
          var j :| 0 <= j < |init| && init[j] == k;
          assert header[j] == k;
        }
      }
    }
  }

  /** Each column takes the cell at its position, or is absent past the last
      cell; when a name repeats in the header, its last position decides. */
  lemma {:induction false} MakeRowCells(header: seq<string>, cells: seq<string>)
    ensures forall i :: 0 <= i < |header| && LastColumnAt(header, i) && i < |cells| ==>
              header[i] in MakeRow(header, cells) && MakeRow(header, cells)[header[i]] == cells[i]
    ensures forall i :: 0 <= i < |header| && LastColumnAt(header, i) && i >= |cells| ==>
              header[i] !in MakeRow(header, cells)
  {
    if |header| > 0 {
      var n := |header| - 1;
      var init := header[..n];
      MakeRowCells(init, cells);
      var row := MakeRow(header, cells);
      var earlier := MakeRow(init, cells);
      assert row == if n < |cells| then earlier[header[n] := cells[n]] else earlier - {header[n]};
      forall i | 0 <= i < |header| && LastColumnAt(header, i)
        ensures i < |cells| ==> header[i] in row && row[header[i]] == cells[i]
        ensures i >= |cells| ==> header[i] !in row
      {
        if i < n {
          assert header[i] != header[n];
          assert init[i] == header[i];
          assert LastColumnAt(init, i) by {
            forall j | i < j < |init| ensures init[j] != init[i] {
              assert init[j] == header[j];
            }
          }
        }
      }
    }
  }

  /** The table section of the buffered lines: no lines give no records;
      otherwise the first line is the comma-separated header row and every
      further line becomes one record. */
  function ProcessDataSection(lines: seq<string>): (rows: seq<Row>)
    ensures lines == [] ==> rows == []
    ensures lines != [] ==> |rows| == |lines| - 1
  {
    if |lines| == 0 then []
    else
      var header := Split(lines[0], ',');
      seq(|lines| - 1, i requires 0 <= i < |lines| - 1 => MakeRow(header, Split(lines[i + 1], ',')))
  }

  /** A table written out as lines: the header row, then one line per record,
      cells separated by commas. */
  function RenderTable(header: seq<string>, records: seq<seq<string>>): (lines: seq<string>)
    ensures |lines| == |records| + 1
  {
    [Join(header, ',')] + seq(|records|, r requires 0 <= r < |records| => Join(records[r], ','))
  }

  /** A record whose cells match a header of distinct column names one for
      one becomes a row with exactly the header's columns, column `i` holding
      cell `i`. */
  lemma RowRoundTrip(header: seq<string>, cells: seq<string>)
    requires forall i, j :: 0 <= i < j < |header| ==> header[i] != header[j]
    requires |cells| == |header|
    ensures forall k :: k in MakeRow(header, cells) <==> k in header
    ensures forall i :: 0 <= i < |header| ==>
              header[i] in MakeRow(header, cells) && MakeRow(header, cells)[header[i]] == cells[i]
  {
    MakeRowKeys(header, cells);
    MakeRowCells(header, cells);
    assert forall i :: 0 <= i < |header| ==> LastColumnAt(header, i);
  }

  /** Reading back a written-out table whose column names are distinct gives,
      for every record, a row whose columns are exactly the header's and whose
      cell under column `i` is the record's `i`-th cell. */
  lemma TableRoundTrip(header: seq<string>, records: seq<seq<string>>)
    requires |header| >= 1
    requires forall i :: 0 <= i < |header| ==> ',' !in header[i]
    requires forall i, j :: 0 <= i < j < |header| ==> header[i] != header[j]
    requires forall r :: 0 <= r < |records| ==> |records[r]| == |header|
    requires forall r, i :: 0 <= r < |records| && 0 <= i < |records[r]| ==> ',' !in records[r][i]
    ensures var rows := ProcessDataSection(RenderTable(header, records));
            && |rows| == |records|
            && (forall r :: 0 <= r < |rows| ==> rows[r] == MakeRow(header, records[r]))
  {
    var lines := RenderTable(header, records);
    var rows := ProcessDataSection(lines);
    assert Split(lines[0], ',') == header by {
      SplitJoin(header, ',');
    }
    forall r | 0 <= r < |rows| ensures rows[r] == MakeRow(header, records[r]) {
      assert lines[r + 1] == Join(records[r], ',');
      SplitJoin(records[r], ',');
    }
  }

  /* ---------------------------------------------------------------------- */
  /* Sections and the scan                                                    */
  /* ---------------------------------------------------------------------- */

  /** A section whose name ends in `Data` is a table; any other is key/value. */
  function ProcessSection(name: string, lines: seq<string>): (s: Section)
    ensures s.Table? <==> EndsWith(name, "Data")
  {
    if EndsWith(name, "Data") then Table(ProcessDataSection(lines))
    else KV(ProcessKvSection(lines))
  }

  /** What one raw line is to the scan once trimmed: blank, a section
      header with its name, or a line of content. */
  datatype Line = Blank | Header(name: string) | Plain(content: string)

  /** The kind of a raw line, judged on its trimmed text. */
  function Classify(raw: string): Line {
    var line := Trim(raw);
    if line == [] then Blank
    else if IsHeader(line) then Header(HeaderName(line))
    else Plain(line)
  }

  /** Every line classified, in order. */
  function Lex(lines: seq<string>): (ls: seq<Line>)
    ensures |ls| == |lines|
    ensures forall i :: 0 <= i < |lines| ==> ls[i] == Classify(lines[i])
  {
    seq(|lines|, i requires 0 <= i < |lines| => Classify(lines[i]))
  }

  /** The scan's state: the current section's name (once a header was seen),
      the trimmed lines buffered for it, and the sections finished so far. */
  datatype Scanner = Scanner(current: Option<string>, buffer: seq<string>, doc: Document)

  /** Before the first line: no section, nothing buffered, nothing stored. */
  const Start := Scanner(None, [], map[])

  /** Whether the buffered lines will be kept: there is a current section and
      its name is not empty (Python's truth test on the name). */
  predicate Open(s: Scanner) {
    s.current.Some? && s.current.value != ""
  }

  /** The document once the current section, if open, is stored under its name. */
  function Close(s: Scanner): (doc: Document)
    ensures !Open(s) ==> doc == s.doc
    ensures Open(s) ==> doc.Keys == s.doc.Keys + {s.current.value}
    ensures Open(s) ==> doc[s.current.value] == ProcessSection(s.current.value, s.buffer)
    ensures forall n :: n in s.doc && !(Open(s) && n == s.current.value) ==> doc[n] == s.doc[n]
  {
    if Open(s) then s.doc[s.current.value := ProcessSection(s.current.value, s.buffer)]
    else s.doc
  }

  /** The scan's reaction to one line: a blank line changes nothing, a header
      closes the current section and starts an empty buffer under its name,
      any other line is buffered. */
  function Step(s: Scanner, line: Line): Scanner {
    match line
    case Blank => s
    case Header(name) => Scanner(Some(name), [], Close(s))
    case Plain(content) => s.(buffer := s.buffer + [content])
  }

  /** The scan state after the classified lines `ls`, starting from `s`. */
  function Scan(s: Scanner, ls: seq<Line>): Scanner {
    if |ls| == 0 then s
    else Step(Scan(s, ls[..|ls| - 1]), ls[|ls| - 1])
  }

  /** The whole parse: scan every line, then close the last section. The
      empty name is never stored. */
  function ParseSampleSheet(lines: seq<string>): (doc: Document)
    ensures "" !in doc
  {
    NoEmptyName(Start, Lex(lines));
    Close(Scan(Start, Lex(lines)))
  }

  /* ---------------------------------------------------------------------- */
  /* Properties of the scan                                                   */
  /* ---------------------------------------------------------------------- */

  /** Whether a raw line is a section header once trimmed. */
  predicate HeaderLine(raw: string) {
    IsHeader(Trim(raw))
  }

  /** A stretch of raw lines containing no section header. */
  predicate NoHeaders(lines: seq<string>) {
    forall i :: 0 <= i < |lines| ==> !HeaderLine(lines[i])
  }

  /** The contents of the plain lines, in order. */
  function Texts(ls: seq<Line>): seq<string> {
    if |ls| == 0 then []
    else Texts(ls[..|ls| - 1]) + (if ls[|ls| - 1].Plain? then [ls[|ls| - 1].content] else [])
  }

  /** The trimmed non-blank lines of a header-free stretch: what a section's
      buffer receives from it. */
  function Content(lines: seq<string>): seq<string> {
    Texts(Lex(lines))
  }

  /** The scan never stores a section under the empty name. */
  lemma {:induction false} NoEmptyName(s: Scanner, ls: seq<Line>)
    requires "" !in s.doc
    ensures "" !in Scan(s, ls).doc
    ensures "" !in Close(Scan(s, ls))
  {
    if |ls| > 0 {
      NoEmptyName(s, ls[..|ls| - 1]);
    }
  }

  /** Classifying lines is done line by line. */
  lemma LexAppend(a: seq<string>, b: seq<string>)
    ensures Lex(a + b) == Lex(a) + Lex(b)
  {
  }

  /** Scanning is a left fold: scanning `a + b` is scanning `b` after `a`. */
  lemma {:induction false} ScanAppend(s: Scanner, a: seq<Line>, b: seq<Line>)
    ensures Scan(s, a + b) == Scan(Scan(s, a), b)
    decreases |b|
  {
    if |b| == 0 {
      assert a + b == a;
    } else {
      var b' := b[..|b| - 1];
      assert (a + b)[..|a + b| - 1] == a + b';
      ScanAppend(s, a, b');
    }
  }

  /** Lines without headers only grow the buffer. */
  lemma {:induction false} BodyAccumulates(s: Scanner, ls: seq<Line>)
    requires forall i :: 0 <= i < |ls| ==> !ls[i].Header?
    ensures Scan(s, ls) == s.(buffer := s.buffer + Texts(ls))
  {
    if |ls| > 0 {
      var init := ls[..|ls| - 1];
      BodyAccumulates(s, init);
      assert s.buffer + Texts(init) + (if ls[|ls| - 1].Plain? then [ls[|ls| - 1].content] else [])
             == s.buffer + Texts(ls);
    } else {
      assert s.buffer + [] == s.buffer;
    }
  }

  /** Two scan states that will produce the same document: the same finished
      sections, and either both discarding their buffers or both equal. */
  predicate Equivalent(s: Scanner, t: Scanner) {
    && s.doc == t.doc
    && Open(s) == Open(t)
    && (Open(s) ==> s.current == t.current && s.buffer == t.buffer)
  }

  /** Equivalent states stay equivalent over the same lines and produce the same document. */
  lemma {:induction false} ScanEquivalent(s: Scanner, t: Scanner, ls: seq<Line>)
    requires Equivalent(s, t)
    ensures Equivalent(Scan(s, ls), Scan(t, ls))
    ensures Close(Scan(s, ls)) == Close(Scan(t, ls))
  {
    if |ls| > 0 {
      ScanEquivalent(s, t, ls[..|ls| - 1]);
    }
  }

  /** Blank lines never affect the result. */
  lemma BlankLineIgnored(a: seq<string>, blank: string, b: seq<string>)
    requires Trim(blank) == []
    ensures ParseSampleSheet(a + [blank] + b) == ParseSampleSheet(a + b)
  {
    LexAppend(a + [blank], b);
    LexAppend(a, [blank]);
    LexAppend(a, b);
    assert Lex([blank]) == [Blank];
    ScanAppend(Start, Lex(a) + [Blank], Lex(b));
    ScanAppend(Start, Lex(a), Lex(b));
    assert Scan(Start, Lex(a) + [Blank]) == Scan(Start, Lex(a)) by {
      assert (Lex(a) + [Blank])[..|Lex(a)|] == Lex(a);
    }
  }

  /** Lines before the first header never reach the document. */
  lemma PreambleIgnored(preamble: seq<string>, rest: seq<string>)
    requires NoHeaders(preamble)
    ensures ParseSampleSheet(preamble + rest) == ParseSampleSheet(rest)
  {
    LexAppend(preamble, rest);
    BodyAccumulates(Start, Lex(preamble));
    ScanAppend(Start, Lex(preamble), Lex(rest));
    assert Scan(Start, []) == Start;
    ScanEquivalent(Scan(Start, Lex(preamble)), Start, Lex(rest));
  }

  /** A sheet without any header has no sections. */
  lemma NoHeaderNoSections(lines: seq<string>)
    requires NoHeaders(lines)
    ensures ParseSampleSheet(lines) == map[]
  {
    PreambleIgnored(lines, []);
    assert lines + [] == lines;
  }

  /** What the scan sees in a raw line: it is blank exactly when it trims to
      nothing, a header exactly when its trimmed text starts with `[` and
      contains `]`, and otherwise its trimmed text is buffered. */
  lemma ClassifyKinds(raw: string)
    ensures Classify(raw).Blank? <==> Trim(raw) == []
    ensures Classify(raw).Header? <==> HeaderLine(raw)
    ensures Classify(raw).Header? ==> Classify(raw).name == HeaderName(Trim(raw))
    ensures Classify(raw).Plain? ==> Classify(raw).content == Trim(raw)
  {
  }

  /** Scanning one more line is one more step. */
  lemma ScanPush(s: Scanner, ls: seq<Line>, line: Line)
    ensures Scan(s, ls + [line]) == Step(Scan(s, ls), line)
  {
    assert (ls + [line])[..|ls|] == ls;
  }

  /** One raw line in the scan: a header line closes the current section and
      opens an empty one under its name; any other line leaves the current
      section and the finished ones alone, buffering its trimmed text unless
      it is blank. */
  lemma LineStep(s: Scanner, raw: string)
    ensures HeaderLine(raw) ==>
              Step(s, Classify(raw)) == Scanner(Some(HeaderName(Trim(raw))), [], Close(s))
    ensures !HeaderLine(raw) ==>
              Step(s, Classify(raw)) == s.(buffer := s.buffer + (if Trim(raw) == [] then [] else [Trim(raw)]))
  {
    ClassifyKinds(raw);
    if !HeaderLine(raw) && Trim(raw) == [] {
      assert s.buffer + [] == s.buffer;
    }
  }

  /** The scan state right after a header line. */
  lemma AfterHeader(a: seq<string>, header: string)
    requires HeaderLine(header)
    ensures Scan(Start, Lex(a + [header]))
            == Scanner(Some(HeaderName(Trim(header))), [], ParseSampleSheet(a))
  {
    var line := Header(HeaderName(Trim(header)));
    assert Lex(a + [header]) == Lex(a) + [line] by {
      LexAppend(a, [header]);
      ClassifyKinds(header);
    }
    ScanPush(Start, Lex(a), line);
  }

  /** The scan state after a header line and header-free lines. */
  lemma AfterBlock(a: seq<string>, header: string, body: seq<string>)
    requires HeaderLine(header)
    requires NoHeaders(body)
    ensures Scan(Start, Lex(a + [header] + body))
            == Scanner(Some(HeaderName(Trim(header))), Content(body), ParseSampleSheet(a))
  {
    AfterHeader(a, header);
    LexAppend(a + [header], body);
    ScanAppend(Start, Lex(a + [header]), Lex(body));
    BodyAccumulates(Scan(Start, Lex(a + [header])), Lex(body));
    assert [] + Content(body) == Content(body);
  }

  /** The document is built block by block: a header followed by header-free
      lines stores the section built from those lines under the header's name
      (replacing any earlier section of that name), or nothing when the name
      is empty. */
  lemma LastBlock(a: seq<string>, header: string, body: seq<string>)
    requires HeaderLine(header)
    requires NoHeaders(body)
    ensures var name := HeaderName(Trim(header));
            ParseSampleSheet(a + [header] + body)
            == if name == "" then ParseSampleSheet(a)
               else ParseSampleSheet(a)[name := ProcessSection(name, Content(body))]
  {
    AfterBlock(a, header, body);
  }

  /** Lines under an empty-named header `[]` never reach the document. */
  lemma EmptyNameDiscards(a: seq<string>, header: string, body: seq<string>, rest: seq<string>)
    requires HeaderLine(header) && HeaderName(Trim(header)) == ""
    requires NoHeaders(body)
    ensures ParseSampleSheet(a + [header] + body + rest) == ParseSampleSheet(a + [header] + rest)
  {
    var prefix := a + [header];
    AfterHeader(a, header);
    AfterBlock(a, header, body);
    LexAppend(prefix + body, rest);
    LexAppend(prefix, rest);
    ScanAppend(Start, Lex(prefix + body), Lex(rest));
    ScanAppend(Start, Lex(prefix), Lex(rest));
    ScanEquivalent(Scan(Start, Lex(prefix + body)), Scan(Start, Lex(prefix)), Lex(rest));
  }

  /** The document's sections are exactly the non-empty names of the sheet's
      header lines: every section is named by some header line, and every
      header line with a non-empty name leaves a section under that name. */
  lemma SectionsComeFromHeaders(lines: seq<string>)
    ensures forall n :: n in ParseSampleSheet(lines) ==>
              exists i :: 0 <= i < |lines| && HeaderLine(lines[i]) && HeaderName(Trim(lines[i])) == n
    ensures forall i :: 0 <= i < |lines| && HeaderLine(lines[i]) && HeaderName(Trim(lines[i])) != "" ==>
              HeaderName(Trim(lines[i])) in ParseSampleSheet(lines)
  {
    var ls := Lex(lines);
    ScanProvenance(ls);
    HeadersStored(ls);
    forall i | 0 <= i < |lines| && HeaderLine(lines[i]) && HeaderName(Trim(lines[i])) != ""
      ensures HeaderName(Trim(lines[i])) in ParseSampleSheet(lines)
    {
      ClassifyKinds(lines[i]);
      assert ls[i] == Header(HeaderName(Trim(lines[i])));
    }
    forall n | n in ParseSampleSheet(lines)
      ensures exists i :: 0 <= i < |lines| && HeaderLine(lines[i]) && HeaderName(Trim(lines[i])) == n
    {
      var i :| 0 <= i < |ls| && ls[i] == Header(n);
      assert Classify(lines[i]) == Header(n);
    }
  }

  /** Some line of `ls` is a header with name `n`. */
  ghost predicate Named(ls: seq<Line>, n: string) {
    exists i :: 0 <= i < |ls| && ls[i] == Header(n)
  }

  /** Every non-empty header name of `ls` is stored once the scan is closed:
      closing only adds sections, and a header's name is stored when its
      section is closed. */
  lemma {:induction false} HeadersStored(ls: seq<Line>)
    ensures forall n :: Named(ls, n) && n != "" ==> n in Close(Scan(Start, ls))
  {
    if |ls| > 0 {
      var init := ls[..|ls| - 1];
      var last := ls[|ls| - 1];
      HeadersStored(init);
      var s := Scan(Start, init);
      assert Scan(Start, ls) == Step(s, last);
      forall n | Named(ls, n) && n != "" ensures n in Close(Scan(Start, ls)) {
        var i :| 0 <= i < |ls| && ls[i] == Header(n);
        var t := Step(s, last);
        if i < |init| {
          assert init[i] == Header(n);
          assert n in Close(s);
          if last.Header? {
            assert Close(s) == t.doc;
          } else {
            assert Close(s).Keys == Close(t).Keys;
          }
        } else {
          assert t.current == Some(n);
        }
      }
    }
  }

  /** Every stored section name and the current name come from a header line. */
  lemma {:induction false} ScanProvenance(ls: seq<Line>)
    ensures var s := Scan(Start, ls);
            && (forall n :: n in s.doc ==> Named(ls, n))
            && (s.current.Some? ==> Named(ls, s.current.value))
            && (forall n :: n in Close(s) ==> Named(ls, n))
  {
    if |ls| > 0 {
      var init := ls[..|ls| - 1];
      ScanProvenance(init);
      forall n | Named(init, n) ensures Named(ls, n) {
        var i :| 0 <= i < |init| && init[i] == Header(n);
        assert ls[i] == init[i];
      }
      var last := |ls| - 1;
      if ls[last].Header? {
        assert Named(ls, ls[last].name);
      }
    }
  }
}
