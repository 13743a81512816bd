/** The column sorter of `reorder_csv.py`: sniffing the delimiter from the first line,
    choosing numeric or text keys for the whole table, the stable ascending sort, and the
    pipeline of `ordenar_csv` with its early exits and its choice of output path.
    The `csv` module, `float()` and the file system are parameters (see `Env`). */
module ReorderCsv {
  import opened Optional
  import opened StableSort

  // ---------------------------------------------------------------------------
  // Delimiter sniffing (`detectar_delimitador`)
  // ---------------------------------------------------------------------------

  /** The candidate delimiters, in the order they are tried. */
  const Candidates: seq<char> := [',', ';', '\t', '|']

  /** The delimiter used when no candidate occurs in the first line. */
  const DefaultDelimiter: char := ','

  /** Python's `str.isspace`, the characters `str.strip()` removes. */
  predicate IsSpace(c: char)
  {
    var n := c as int;
    (0x09 <= n <= 0x0D) || (0x1C <= n <= 0x20) || n == 0x85 || n == 0xA0 || n == 0x1680 ||
    (0x2000 <= n <= 0x200A) || n == 0x2028 || n == 0x2029 || n == 0x202F || n == 0x205F || n == 0x3000
  }

  /** The number of whitespace characters at the start of `s`. */
  function LeadingSpaces(s: string): (n: nat)
    ensures n <= |s|
    ensures forall k :: 0 <= k < n ==> IsSpace(s[k])
    ensures n < |s| ==> !IsSpace(s[n])
  {
    if s != [] && IsSpace(s[0]) then 1 + LeadingSpaces(s[1..]) else 0
  }

  /** The number of whitespace characters at the end of `s`. */
  function TrailingSpaces(s: string): (n: nat)
    ensures n <= |s|
    ensures forall k :: |s| - n <= k < |s| ==> IsSpace(s[k])
    ensures n < |s| ==> !IsSpace(s[|s| - 1 - n])
  {
    if s != [] && IsSpace(s[|s| - 1]) then 1 + TrailingSpaces(s[..|s| - 1]) else 0
  }

  /** Python's `str.strip()`: the slice of `s` left after removing whitespace at both ends. */
  function Strip(s: string): (r: string)
    ensures exists i, j ::
              && 0 <= i <= j <= |s| && r == s[i..j]
              && (forall k :: 0 <= k < i ==> IsSpace(s[k]))
              && (forall k :: j <= k < |s| ==> IsSpace(s[k]))
    ensures r != [] ==> !IsSpace(r[0]) && !IsSpace(r[|r| - 1])
  {
    var i := LeadingSpaces(s);
    var t := s[i..];
    var n := TrailingSpaces(t);
    assert t[..|t| - n] == s[i..|s| - n];
    t[..|t| - n]
  }

  /** Where the first line of `text` ends: the first line break, or the end of the text.
      In text mode Python reads `\r`, `\n` and `\r\n` all as a line break. */
  function LineEnd(text: string): (n: nat)
    ensures n <= |text|
    ensures forall k :: 0 <= k < n ==> text[k] != '\n' && text[k] != '\r'
    ensures n < |text| ==> text[n] == '\n' || text[n] == '\r'
  {
    if text == [] || text[0] == '\n' || text[0] == '\r' then 0 else 1 + LineEnd(text[1..])
  }

  /** `f.readline().strip()`: the first line without its line break and surrounding whitespace. */
  function FirstLine(text: string): string
  {
    Strip(text[..LineEnd(text)])
  }

  /** The candidates from position `i` on, searched in order; the default when none occurs. */
  function SniffFrom(line: string, i: nat): char
    requires i <= |Candidates|
    decreases |Candidates| - i
  {
    if i == |Candidates| then DefaultDelimiter
    else if Candidates[i] in line then Candidates[i]
    else SniffFrom(line, i + 1)
  }

  /** The delimiter detected in a (stripped) first line. */
  function Sniff(line: string): char
  {
    SniffFrom(line, 0)
  }

  /** The detected delimiter is the candidate of highest priority that occurs in the line. */
  lemma SniffFirstPresent(line: string, k: nat)
    requires k < |Candidates| && Candidates[k] in line
    requires forall j :: 0 <= j < k ==> Candidates[j] !in line
    ensures Sniff(line) == Candidates[k]
  {
  }

  /** When no candidate occurs, the delimiter is a comma; so it is always one of the candidates. */
  lemma SniffDefault(line: string)
    requires forall j :: 0 <= j < |Candidates| ==> Candidates[j] !in line
    ensures Sniff(line) == DefaultDelimiter
  {
  }

  lemma SniffIsCandidate(line: string)
    ensures Sniff(line) in Candidates
    ensures Sniff(line) in line || Sniff(line) == DefaultDelimiter
  {
  }

  /** `detectar_delimitador`: the loop over the candidates with its early return. */
  method DetectDelimiter(text: string) returns (d: char)
    ensures d == Sniff(FirstLine(text))
  {
    var line := FirstLine(text);
    var i := 0;
    while i < |Candidates|
      invariant 0 <= i <= |Candidates|
      invariant SniffFrom(line, i) == Sniff(line)
    {
      if Candidates[i] in line {
        return Candidates[i];
      }
      i := i + 1;
    }
    return DefaultDelimiter;
  }

  /** Whitespace around a line whose ends are not whitespace is exactly what `strip()` removes. */
  lemma StripSurrounded(pre: string, inner: string, post: string)
    requires forall k :: 0 <= k < |pre| ==> IsSpace(pre[k])
    requires forall k :: 0 <= k < |post| ==> IsSpace(post[k])
    requires inner != [] && !IsSpace(inner[0]) && !IsSpace(inner[|inner| - 1])
    ensures Strip(pre + inner + post) == inner
  {
    var s := pre + inner + post;
    assert s[|pre|] == inner[0];
    var i := LeadingSpaces(s);
    assert i == |pre|;
    var t := s[i..];
    assert t == inner + post;
    assert t[|inner| - 1] == inner[|inner| - 1];
    var n := TrailingSpaces(t);
    assert n == |post|;
    assert t[..|t| - n] == inner;
  }

  /** Tabs around the first line are stripped before the search, so they never select a tab. */
  lemma EdgeTabsIgnored(inner: string)
    requires inner != [] && !IsSpace(inner[0]) && !IsSpace(inner[|inner| - 1])
    requires '\t' !in inner && '|' in inner && ',' !in inner && ';' !in inner
    ensures Sniff(Strip("\t" + inner + "\t")) == '|'
  {
    StripSurrounded("\t", inner, "\t");
    SniffFirstPresent(inner, 3);
  }

  // ---------------------------------------------------------------------------
  // Keys and the sort (`sorted(filas, key=...)`)
  // ---------------------------------------------------------------------------

  /** A parsed record: column name to cell text. A short record lacks the missing columns. */
  type Row = map<string, string>

  /** Every record has a value in `col`. */
  predicate HasColumn(rows: seq<Row>, col: string)
  {
    forall i :: 0 <= i < |rows| ==> col in rows[i]
  }

  /** The attempt `float(x[col])` on every record, in order: true when none raises. */
  function AllNumeric(rows: seq<Row>, col: string, toNumber: string -> Option<real>): (b: bool)
    requires HasColumn(rows, col)
    ensures b <==> forall i :: 0 <= i < |rows| ==> toNumber(rows[i][col]).Some?
  {
    if rows == [] then true
    else toNumber(rows[0][col]).Some? && AllNumeric(rows[1..], col, toNumber)
  }

  /** The key of one record: the number in numeric mode, the raw text otherwise.
      Only applied to records that have the column and, in numeric mode, convert. */
  function KeyOf(r: Row, col: string, toNumber: string -> Option<real>, numeric: bool): Key
  {
    var v := if col in r then r[col] else "";
    if numeric && toNumber(v).Some? then Num(toNumber(v).value) else Str(v)
  }

  /** The key function used for the whole table: numeric when every value converts,
      text for every record as soon as one value does not. */
  function TableKey(rows: seq<Row>, col: string, toNumber: string -> Option<real>): (key: Row -> Key)
    requires HasColumn(rows, col)
    ensures (forall i :: 0 <= i < |rows| ==> toNumber(rows[i][col]).Some?) ==>
      forall i :: 0 <= i < |rows| ==> key(rows[i]) == Num(toNumber(rows[i][col]).value)
    ensures (exists i :: 0 <= i < |rows| && toNumber(rows[i][col]).None?) ==>
      forall i :: 0 <= i < |rows| ==> key(rows[i]) == Str(rows[i][col])
  {
    var numeric := AllNumeric(rows, col, toNumber);
    r => KeyOf(r, col, toNumber, numeric)
  }

  /** The records sorted ascending by the table's key, stably. */
  function SortRows(rows: seq<Row>, col: string, toNumber: string -> Option<real>): seq<Row>
    requires HasColumn(rows, col)
  {
    SortBy(rows, TableKey(rows, col, toNumber))
  }

  /** The output holds exactly the input records. */
  lemma SortRowsPermutation(rows: seq<Row>, col: string, toNumber: string -> Option<real>)
    requires HasColumn(rows, col)
    ensures multiset(SortRows(rows, col, toNumber)) == multiset(rows)
  {
    SortByPermutation(rows, TableKey(rows, col, toNumber));
  }

  lemma SortRowsMembers(rows: seq<Row>, col: string, toNumber: string -> Option<real>)
    requires HasColumn(rows, col)
    ensures forall r :: r in SortRows(rows, col, toNumber) <==> r in rows
    ensures |SortRows(rows, col, toNumber)| == |rows|
  {
    SortRowsPermutation(rows, col, toNumber);
    var out := SortRows(rows, col, toNumber);
    assert |multiset(out)| == |multiset(rows)|;
    forall r ensures r in out <==> r in rows {
      assert r in out <==> r in multiset(out);
      assert r in rows <==> r in multiset(rows);
    }
  }

  /** The sorted records again satisfy everything the sort relied on. */
  lemma SortRowsHasColumn(rows: seq<Row>, col: string, toNumber: string -> Option<real>)
    requires HasColumn(rows, col)
    ensures HasColumn(SortRows(rows, col, toNumber), col)
    ensures AllNumeric(SortRows(rows, col, toNumber), col, toNumber) == AllNumeric(rows, col, toNumber)
  {
    SortRowsMembers(rows, col, toNumber);
    var out := SortRows(rows, col, toNumber);
    forall i | 0 <= i < |out| ensures col in out[i] {
      assert out[i] in rows;
    }
    if AllNumeric(rows, col, toNumber) {
      forall i | 0 <= i < |out| ensures toNumber(out[i][col]).Some? {
        assert out[i] in rows;
      }
    } else {
      var m :| 0 <= m < |rows| && toNumber(rows[m][col]).None?;
      assert rows[m] in out;
    }
  }

  /** When every value converts, the output is non-decreasing by numeric value. */
  lemma SortRowsNumericOrder(rows: seq<Row>, col: string, toNumber: string -> Option<real>)
    requires HasColumn(rows, col)
    requires forall i :: 0 <= i < |rows| ==> toNumber(rows[i][col]).Some?
    ensures var out := SortRows(rows, col, toNumber);
      HasColumn(out, col) && (forall i :: 0 <= i < |out| ==> toNumber(out[i][col]).Some?) &&
      forall i, j :: 0 <= i < j < |out| ==> toNumber(out[i][col]).value <= toNumber(out[j][col]).value
  {
    var key := TableKey(rows, col, toNumber);
    var out := SortRows(rows, col, toNumber);
    SortBySorted(rows, key);
    SortRowsHasColumn(rows, col, toNumber);
    SortRowsMembers(rows, col, toNumber);
    forall i | 0 <= i < |out| ensures key(out[i]) == Num(toNumber(out[i][col]).value) {
      assert out[i] in rows;
    }
    forall i, j | 0 <= i < j < |out| ensures toNumber(out[i][col]).value <= toNumber(out[j][col]).value {
      assert !KeyLt(key(out[j]), key(out[i]));
    }
  }

  /** When some value does not convert, the whole output is ordered by raw text. */
  lemma SortRowsTextOrder(rows: seq<Row>, col: string, toNumber: string -> Option<real>)
    requires HasColumn(rows, col)
    requires exists i :: 0 <= i < |rows| && toNumber(rows[i][col]).None?
    ensures var out := SortRows(rows, col, toNumber);
      HasColumn(out, col) &&
      forall i, j :: 0 <= i < j < |out| ==> !StrLt(out[j][col], out[i][col])
  {
    var key := TableKey(rows, col, toNumber);
    var out := SortRows(rows, col, toNumber);
    SortBySorted(rows, key);
    SortRowsHasColumn(rows, col, toNumber);
    SortRowsMembers(rows, col, toNumber);
    forall i | 0 <= i < |out| ensures key(out[i]) == Str(out[i][col]) {
      assert out[i] in rows;
    }
    forall i, j | 0 <= i < j < |out| ensures !StrLt(out[j][col], out[i][col]) {
      assert !KeyLt(key(out[j]), key(out[i]));
    }
  }

  /** Records with equal keys keep their input order. */
  lemma SortRowsStable(rows: seq<Row>, col: string, toNumber: string -> Option<real>)
    requires HasColumn(rows, col)
    ensures StableFor(SortRows(rows, col, toNumber), rows, TableKey(rows, col, toNumber))
  {
    SortByStable(rows, TableKey(rows, col, toNumber));
  }

  /** Sorting the sorted records by the same column gives them back unchanged. */
  lemma SortRowsIdempotent(rows: seq<Row>, col: string, toNumber: string -> Option<real>)
    requires HasColumn(rows, col)
    ensures HasColumn(SortRows(rows, col, toNumber), col)
    ensures SortRows(SortRows(rows, col, toNumber), col, toNumber) == SortRows(rows, col, toNumber)
  {
    SortRowsHasColumn(rows, col, toNumber);
    var out := SortRows(rows, col, toNumber);
    assert TableKey(out, col, toNumber) == TableKey(rows, col, toNumber);
    SortByIdempotent(rows, TableKey(rows, col, toNumber));
  }

  /** A sample number parser for the examples: "5", "25" and "30" convert, nothing else does. */
  function SampleNumber(s: string): Option<real>
  {
    if s == "5" then Some(5.0) else if s == "25" then Some(25.0) else if s == "30" then Some(30.0) else None
  }

  /** Sorting `Bob,30 / Ana,25 / Coe,25` by `age` orders numerically and keeps Ana before Coe. */
  lemma NumericSortExample()
    ensures var bob, ana, coe := map["name" := "Bob", "age" := "30"],
                                 map["name" := "Ana", "age" := "25"],
                                 map["name" := "Coe", "age" := "25"];
      SortRows([bob, ana, coe], "age", SampleNumber) == [ana, coe, bob]
  {
    var bob, ana, coe := map["name" := "Bob", "age" := "30"],
                         map["name" := "Ana", "age" := "25"],
                         map["name" := "Coe", "age" := "25"];
    var rows := [bob, ana, coe];
    assert AllNumeric(rows, "age", SampleNumber);
    var key := TableKey(rows, "age", SampleNumber);
    assert key(bob) == Num(30.0) && key(ana) == Num(25.0) && key(coe) == Num(25.0);
    assert rows[1..] == [ana, coe] && rows[1..][1..] == [coe];
    assert SortBy([coe], key) == [coe];
    assert SortBy([ana, coe], key) == [ana, coe];
    assert Insert(bob, [ana, coe], key) == [ana, coe, bob] by {
      assert [ana, coe][1..] == [coe];
      assert Insert(bob, [coe], key) == [coe, bob];
    }
  }

  /** Values that do not convert send the whole column to text order, the one that does
      convert included: "5" < "abc" < "x". */
  lemma TextFallbackExample()
    ensures SampleNumber("5").Some? && SampleNumber("x").None?
    ensures var x, abc, five := map["v" := "x"], map["v" := "abc"], map["v" := "5"];
      SortRows([x, abc, five], "v", SampleNumber) == [five, abc, x]
  {
    var x, abc, five := map["v" := "x"], map["v" := "abc"], map["v" := "5"];
    var rows := [x, abc, five];
    assert SampleNumber("x").None?;
    assert !AllNumeric(rows, "v", SampleNumber);
    var key := TableKey(rows, "v", SampleNumber);
    assert key(x) == Str("x") && key(abc) == Str("abc") && key(five) == Str("5");
    SortTextExample(x, abc, five, key);
  }

  lemma SortTextExample(x: Row, abc: Row, five: Row, key: Row -> Key)
    requires key(x) == Str("x") && key(abc) == Str("abc") && key(five) == Str("5")
    ensures SortBy([x, abc, five], key) == [five, abc, x]
  {
    assert StrLt("5", "abc") && StrLt("5", "x") && StrLt("abc", "x");
    var rows := [x, abc, five];
    assert rows[1..] == [abc, five] && rows[1..][1..] == [five];
    assert SortBy([five], key) == [five];
    assert SortBy([abc, five], key) == [five, abc] by {
      assert Insert(abc, [five], key) == [five] + Insert(abc, [], key);
    }
    assert Insert(x, [five, abc], key) == [five, abc, x] by {
      assert [five, abc][1..] == [abc];
      assert Insert(x, [abc], key) == [abc, x];
    }
  }

  // ---------------------------------------------------------------------------
  // The pipeline (`ordenar_csv`)
  // ---------------------------------------------------------------------------

  /** What the sorter depends on but does not define: the `csv` reader and writer,
      `float()`, and which paths cannot be opened for writing. */
  datatype Env = Env(
    /** `csv.DictReader(...).fieldnames` over a file's text with a delimiter: the header,
        read on its own. None when it raises or the file has no header line (`fieldnames`
        is None, and the membership test on it raises). */
    fieldnames: (string, char) -> Option<seq<string>>,
    /** `list(reader)`: the records after the header, read later. None when it raises. */
    records: (string, char) -> Option<seq<Row>>,
    /** `csv.DictWriter`: the text of a header line followed by the records. */
    write: (char, seq<string>, seq<Row>) -> string,
    /** `float()`; None where it raises `ValueError`. */
    toNumber: string -> Option<real>,
    /** Paths that `open(path, 'w')` fails on. */
    unwritable: set<string>)

  /** What `ordenar_csv` reports. It returns True exactly for `Done`; `numeric` is false
      when the text fallback warning was printed. */
  datatype Outcome = Done(numeric: bool) | NotFound | MissingColumn(available: seq<string>) | Failed

  /** The suffix of the temporary sibling file used for an in-place rewrite. */
  const TempSuffix: string := ".temp"

  /** The delimiter used for reading and writing: the given one, or the detected one.
      The `csv` module refuses a delimiter that is not exactly one character. */
  function Resolve(text: string, delimiter: Option<string>): Option<char>
  {
    if delimiter.None? then Some(Sniff(FirstLine(text)))
    else if |delimiter.value| == 1 then Some(delimiter.value[0])
    else None
  }

  /** The path written to: the given output path, or the temporary sibling of the input. */
  function Target(input: string, output: Option<string>): string
  {
    if output.None? then input + TempSuffix else output.value
  }

  /** `ordenar_csv`: `files` maps each existing path to its text, `files'` is the new state. */
  method SortCsv(files: map<string, string>, input: string, column: string,
                 output: Option<string>, delimiter: Option<string>, env: Env)
    returns (outcome: Outcome, files': map<string, string>)
    ensures outcome == NotFound <==> input !in files
    ensures !outcome.Done? ==> files' == files
    ensures outcome.Done? <==>
      input in files && Resolve(files[input], delimiter).Some? &&
      var d := Resolve(files[input], delimiter).value;
      env.fieldnames(files[input], d).Some? && column in env.fieldnames(files[input], d).value &&
      env.records(files[input], d).Some? && HasColumn(env.records(files[input], d).value, column) &&
      Target(input, output) !in env.unwritable
    ensures outcome.MissingColumn? <==>
      input in files && Resolve(files[input], delimiter).Some? &&
      var d := Resolve(files[input], delimiter).value;
      env.fieldnames(files[input], d).Some? && column !in env.fieldnames(files[input], d).value
    ensures outcome.MissingColumn? ==>
      outcome.available == env.fieldnames(files[input], Resolve(files[input], delimiter).value).value
    ensures outcome.Done? ==>
      var d := Resolve(files[input], delimiter).value;
      var header, rows := env.fieldnames(files[input], d).value, env.records(files[input], d).value;
      var content := env.write(d, header, SortRows(rows, column, env.toNumber));
      (outcome.numeric <==> forall i :: 0 <= i < |rows| ==> env.toNumber(rows[i][column]).Some?) &&
      files' == if output.None? then (files - {input + TempSuffix})[input := content]
                else files[output.value := content]
    ensures outcome.Done? ==>
      var d := Resolve(files[input], delimiter).value;
      var header, rows := env.fieldnames(files[input], d).value, env.records(files[input], d).value;
      var content := env.write(d, header, SortRows(rows, column, env.toNumber));
      var written := if output.None? then input else output.value;
      && written in files' && files'[written] == content
      && (output.None? ==> input + TempSuffix !in files')
      && forall p :: p in files && p != written && p != Target(input, output) ==> p in files' && files'[p] == files[p]
  {
    var target: string;
    var replace: bool;
    if output.None? {
      target := input + TempSuffix;
      replace := true;
    } else {
      target := output.value;
      replace := false;
    }

    if input !in files {
      return NotFound, files;
    }

    var delim: char;
    if delimiter.None? {
      delim := DetectDelimiter(files[input]);
    } else if |delimiter.value| != 1 {
      return Failed, files;
    } else {
      delim := delimiter.value[0];
    }

    var fields := env.fieldnames(files[input], delim);
    if fields.None? {
      return Failed, files;
    }
    var header := fields.value;
    if column !in header {
      return MissingColumn(header), files;
    }
    var records := env.records(files[input], delim);
    if records.None? {
      return Failed, files;
    }
    var rows := records.value;
    // A short record has no value in the column: `float(None)` or comparing None with text raises.
    if !HasColumn(rows, column) {
      return Failed, files;
    }

    var numeric := AllNumeric(rows, column, env.toNumber);
    var sorted := SortRows(rows, column, env.toNumber);

    if target in env.unwritable {
      return Failed, files;
    }
    var content := env.write(delim, header, sorted);
    files' := files[target := content];
    if replace {
      files' := (files' - {target})[input := content];
      InPlaceReplacesInput(files, input, content);
    }
    outcome := Done(numeric);
  }

  /** An in-place rewrite replaces the input and leaves no temporary file behind. */
  lemma InPlaceReplacesInput(files: map<string, string>, input: string, content: string)
    ensures var after := (files - {input + TempSuffix})[input := content];
      after[input] == content && input + TempSuffix !in after &&
      forall p :: p in files && p != input && p != input + TempSuffix ==> p in after && after[p] == files[p]
  {
    assert input != input + TempSuffix by {
      assert |input + TempSuffix| == |input| + 5;
    }
  }
}
