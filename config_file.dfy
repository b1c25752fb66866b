/** The project configuration file (class ConfigFile, ConfigFile.cpp): lines
    of the form key=v1,v2,... with whitespace ignored and '#' starting a
    comment, read into a map from key to value set, from which three
    directory and file lists are filled, each with a default. */
module ConfigFiles {
  import opened Wrappers
  import opened Text

  /** The tokens std::getline(stream, token, ',') yields: the pieces between
      commas, an empty piece before a comma kept, nothing after a final
      comma. */
  function SplitValues(s: string): (r: seq<string>)
    ensures forall i :: 0 <= i < |r| ==> ',' !in r[i]
    ensures s != [] ==> |r| > 0
    decreases |s|
  {
    if s == [] then []
    else match FindFrom(s, ',', 0)
      case None => [s]
      case Some(i) => [s[..i]] + SplitValues(s[i + 1..])
  }

  /** The tokens written out with a comma between each two. */
  function JoinValues(toks: seq<string>): string {
    if toks == [] then ""
    else if |toks| == 1 then toks[0]
    else toks[0] + "," + JoinValues(toks[1..])
  }

  lemma {:induction false} JoinNonEmpty(toks: seq<string>)
    requires toks != [] && toks[|toks| - 1] != ""
    ensures JoinValues(toks) != ""
  {
    if |toks| > 1 {
      JoinNonEmpty(toks[1..]);
    }
  }

  /** The first token of t,rest is t, when t holds no comma. */
  lemma SplitAtComma(t: string, rest: string)
    requires ',' !in t
    ensures SplitValues(t + "," + rest) == [t] + SplitValues(rest)
  {
    var s := t + "," + rest;
    assert forall k :: 0 <= k < |t| ==> s[k] == t[k];
    FindFirst(s, ',', 0, |t|);
    assert s[..|t|] == t && s[|t| + 1..] == rest;
  }

  /** Splitting undoes joining whenever no token holds a comma and the last
      token is not empty (a final empty token would vanish). */
  lemma {:induction false} SplitJoin(toks: seq<string>)
    requires forall i :: 0 <= i < |toks| ==> ',' !in toks[i]
    requires toks == [] || toks[|toks| - 1] != ""
    ensures SplitValues(JoinValues(toks)) == toks
  {
    if |toks| == 1 {
      assert FindFrom(toks[0], ',', 0).None?;
    } else if |toks| > 1 {
      assert ',' !in toks[0];
      assert JoinValues(toks) == toks[0] + "," + JoinValues(toks[1..]);
      SplitAtComma(toks[0], JoinValues(toks[1..]));
      SplitJoin(toks[1..]);
      assert toks == [toks[0]] + toks[1..];
    }
  }

  /** A line with nothing from the first '#' on. */
  function Uncomment(line: string): (r: string)
    ensures '#' !in r && |r| <= |line| && r == line[..|r|]
  {
    match FindFrom(line, '#', 0)
    case None => line
    case Some(p) => line[..p]
  }

  /** What of a raw line is parsed: its whitespace removed, then its comment. */
  function Clean(raw: string): (r: string)
    ensures NoSpaces(r) && '#' !in r
  {
    var line := Uncomment(RemoveSpaces(raw));
    assert line == RemoveSpaces(raw)[..|line|];
    line
  }

  /** The value set of the text after '=': empty for empty text. */
  function ValueSet(values: string): set<string> {
    if |values| > 0 then set t | t in SplitValues(values) else {}
  }

  datatype LineResult =
    | Skip                                 // nothing left once spaces and comment are gone
    | Malformed                            // no '=': the whole parse fails
    | Entry(key: string, values: set<string>)

  /** One line of parseRawData_, with the key taken as the text before '='. */
  function ParseLine(raw: string): (r: LineResult)
    ensures r == Skip <==> Clean(raw) == ""
    ensures r == Malformed <==> Clean(raw) != "" && '=' !in Clean(raw)
    ensures r.Entry? ==> '=' !in r.key && NoSpaces(r.key) && '#' !in r.key
  {
    var line := Clean(raw);
    if line == "" then Skip
    else match FindFrom(line, '=', 0)
      case None => Malformed
      case Some(eq) => Entry(line[..eq], ValueSet(line[eq + 1..]))
  }

  /** Whitespace anywhere in a line makes no difference. */
  lemma ParseLineIgnoresSpaces(a: string, b: string, c: string)
    requires forall i :: 0 <= i < |b| ==> IsSpace(b[i])
    ensures ParseLine(a + b + c) == ParseLine(a + c)
  {
    RemoveSpacesDropsSpaces(a, b, c);
    assert Clean(a + b + c) == Clean(a + c);
    ParseLineClean(a + b + c, a + c);
  }

  /** A line's outcome depends on its cleaned text alone. */
  lemma ParseLineClean(x: string, y: string)
    requires Clean(x) == Clean(y)
    ensures ParseLine(x) == ParseLine(y)
  {
  }

  /** Cutting at the first '#' of a#b leaves a. */
  lemma UncommentAt(a: string, b: string)
    requires '#' !in a
    ensures Uncomment(a + "#" + b) == a
  {
    var s := a + "#" + b;
    assert s[|a|] == '#';
    assert forall k :: 0 <= k < |a| ==> s[k] == a[k];
    FindFirst(s, '#', 0, |a|);
    assert s[..|a|] == a;
  }

  /** Everything from the first '#' is ignored. */
  lemma ParseLineIgnoresComment(a: string, b: string)
    requires '#' !in a
    ensures ParseLine(a + "#" + b) == ParseLine(a)
  {
    var ra := RemoveSpaces(a);
    assert RemoveSpaces(a + "#" + b) == ra + "#" + RemoveSpaces(b) by {
      RemoveSpacesAppend(a + "#", b);
      RemoveSpacesAppend(a, "#");
    }
    RemoveSpacesLacks(a, '#');
    UncommentAt(ra, RemoveSpaces(b));
    assert Uncomment(ra) == ra by {
      assert FindFrom(ra, '#', 0).None?;
    }
    ParseLineClean(a + "#" + b, a);
  }

  /** The first '=' of key=j, for a key without one, follows the key. */
  lemma KeyBeforeEq(key: string, j: string)
    requires '=' !in key
    ensures FindFrom(key + "=" + j, '=', 0) == Some(|key|)
    ensures (key + "=" + j)[..|key|] == key && (key + "=" + j)[|key| + 1..] == j
  {
    var s := key + "=" + j;
    assert forall k :: 0 <= k < |key| ==> s[k] == key[k];
    FindFirst(s, '=', 0, |key|);
    assert s[..|key|] == key && s[|key| + 1..] == j;
  }

  /** The value set of joined tokens is the set of the tokens. */
  lemma ValueSetJoin(toks: seq<string>)
    requires forall i :: 0 <= i < |toks| ==> ',' !in toks[i]
    requires toks == [] || toks[|toks| - 1] != ""
    ensures ValueSet(JoinValues(toks)) == set t | t in toks
  {
    if toks != [] {
      JoinNonEmpty(toks);
    }
    SplitJoin(toks);
  }

  /** A line written as key=v1,v2,... parses to that key and those values. */
  lemma ParseLineRoundTrip(key: string, toks: seq<string>)
    requires NoSpaces(key) && '#' !in key && '=' !in key
    requires forall i :: 0 <= i < |toks| ==> NoSpaces(toks[i]) && '#' !in toks[i] && ',' !in toks[i]
    requires toks == [] || toks[|toks| - 1] != ""
    ensures ParseLine(key + "=" + JoinValues(toks)) == Entry(key, set t | t in toks)
  {
    var j := JoinValues(toks);
    var s := key + "=" + j;
    JoinClean(toks);
    CleanLine(key, j);
    KeyBeforeEq(key, j);
    ValueSetJoin(toks);
    assert ParseLine(s) == Entry(s[..|key|], ValueSet(s[|key| + 1..]));
  }

  /** A line whose cleaned text has its first '=' at eq is the entry split
      there. */
  lemma ParseLineSplitsAt(raw: string, eq: nat)
    requires eq < |Clean(raw)| && Clean(raw)[eq] == '='
    requires forall k :: 0 <= k < eq ==> Clean(raw)[k] != '='
    ensures ParseLine(raw) == Entry(Clean(raw)[..eq], ValueSet(Clean(raw)[eq + 1..]))
  {
    FindFirst(Clean(raw), '=', 0, eq);
  }

  lemma CleanLine(key: string, j: string)
    requires NoSpaces(key) && '#' !in key
    requires NoSpaces(j) && '#' !in j
    ensures Clean(key + "=" + j) == key + "=" + j
  {
    var s := key + "=" + j;
    assert NoSpaces(s) by {
      forall i | 0 <= i < |s|
        ensures !IsSpace(s[i])
      {
        if i > |key| {
          assert s[i] == j[i - |key| - 1];
        }
      }
    }
    assert '#' !in s by {
      forall i | 0 <= i < |s|
        ensures s[i] != '#'
      {
        if i > |key| {
          assert s[i] == j[i - |key| - 1];
        } else if i < |key| {
          assert s[i] == key[i];
        }
      }
    }
    RemoveSpacesNoSpaces(s);
    assert FindFrom(s, '#', 0).None?;
  }

  /** A joined token list has no whitespace or '#' when its tokens have none. */
  lemma {:induction false} JoinClean(toks: seq<string>)
    requires forall i :: 0 <= i < |toks| ==> NoSpaces(toks[i]) && '#' !in toks[i]
    ensures NoSpaces(JoinValues(toks)) && '#' !in JoinValues(toks)
  {
    if |toks| > 1 {
      JoinClean(toks[1..]);
      var j := JoinValues(toks);
      assert j == toks[0] + "," + JoinValues(toks[1..]);
      forall i | 0 <= i < |j|
        ensures !IsSpace(j[i]) && j[i] != '#'
      {
        if i < |toks[0]| {
          assert j[i] == toks[0][i];
        } else if i > |toks[0]| {
          assert j[i] == JoinValues(toks[1..])[i - |toks[0]| - 1];
        }
      }
    }
  }

  /** The key as ConfigFile.cpp:97 takes it: line.substr(0, foundEq-1). The
      count foundEq-1 drops the last character before '='; for '=' in front
      it wraps around to npos and the key is the whole line. */
  function KeyAsWritten(line: string, eq: nat): string
    requires eq < |line|
  {
    if eq == 0 then line else line[..eq - 1]
  }

  /** One line of parseRawData_ exactly as written. */
  function ParseLineAsWritten(raw: string): LineResult {
    var line := Clean(raw);
    if line == "" then Skip
    else match FindFrom(line, '=', 0)
      case None => Malformed
      case Some(eq) => Entry(KeyAsWritten(line, eq), ValueSet(line[eq + 1..]))
  }

  /** As written, every key loses its last character; and a line starting
      with '=' gets the whole line as its key. */
  lemma AsWrittenKey(raw: string)
    ensures ParseLine(raw).Entry? <==> ParseLineAsWritten(raw).Entry?
    ensures ParseLine(raw).Entry? && ParseLine(raw).key != "" ==>
              ParseLineAsWritten(raw) == ParseLine(raw).(key := ParseLine(raw).key[..|ParseLine(raw).key| - 1])
    ensures ParseLine(raw).Entry? && ParseLine(raw).key == "" ==>
              ParseLineAsWritten(raw).key == Clean(raw) && '=' in ParseLineAsWritten(raw).key
  {
    var line := Clean(raw);
    if line != "" && FindFrom(line, '=', 0).Some? {
      var eq := FindFrom(line, '=', 0).value;
      if eq > 0 {
        assert line[..eq][..eq - 1] == line[..eq - 1];
      }
      assert line[eq] == '=';
    }
  }

  /** So a line written key=v1,v2,... is stored, as written, under the key
      without its last character. */
  lemma AsWrittenWrittenLine(key: string, toks: seq<string>)
    requires NoSpaces(key) && '#' !in key && '=' !in key && key != ""
    requires forall i :: 0 <= i < |toks| ==> NoSpaces(toks[i]) && '#' !in toks[i] && ',' !in toks[i]
    requires toks == [] || toks[|toks| - 1] != ""
    ensures ParseLineAsWritten(key + "=" + JoinValues(toks)) == Entry(key[..|key| - 1], set t | t in toks)
  {
    ParseLineRoundTrip(key, toks);
    AsWrittenKey(key + "=" + JoinValues(toks));
  }

  /** The consequence: "PROJECT_DIRS=src" is stored under "PROJECT_DIR", so
      the lookup of PROJECT_DIRS never finds it, while the corrected key is
      PROJECT_DIRS. */
  lemma AsWrittenMissesProjectDirs(line: string)
    requires line == "PROJECT_DIRS=src"
    ensures ParseLine(line) == Entry("PROJECT_DIRS", {"src"})
    ensures ParseLineAsWritten(line) == Entry("PROJECT_DIR", {"src"})
  {
    var key, toks := "PROJECT_DIRS", ["src"];
    assert key + "=" + JoinValues(toks) == line;
    assert (set t | t in toks) == {"src"};
    ParseLineRoundTrip(key, toks);
    AsWrittenWrittenLine(key, toks);
    assert key[..|key| - 1] == "PROJECT_DIR";
  }

  type RawData = map<string, set<string>>

  /** The effect of parseRawData_ on the stored map, line by line: skipped
      lines change nothing, an entry replaces the key's earlier set, and the
      first malformed line stops the parse with failure. */
  function Apply(m: RawData, lines: seq<string>): (RawData, bool)
    decreases |lines|
  {
    if lines == [] then (m, true)
    else match ParseLine(lines[0])
      case Skip => Apply(m, lines[1..])
      case Malformed => (m, false)
      case Entry(k, v) => Apply(m[k := v], lines[1..])
  }

  /** The parse fails exactly when some line is malformed. */
  lemma {:induction false} ApplyFails(m: RawData, lines: seq<string>)
    ensures !Apply(m, lines).1 <==> exists i :: 0 <= i < |lines| && ParseLine(lines[i]) == Malformed
    decreases |lines|
  {
    if lines != [] {
      match ParseLine(lines[0])
      case Skip =>
        ApplyFails(m, lines[1..]);
        ShiftMalformed(lines);
      case Malformed =>
      case Entry(k, v) =>
        ApplyFails(m[k := v], lines[1..]);
        ShiftMalformed(lines);
    }
  }

  lemma ShiftMalformed(lines: seq<string>)
    requires lines != [] && ParseLine(lines[0]) != Malformed
    ensures (exists i :: 0 <= i < |lines| && ParseLine(lines[i]) == Malformed)
        <==> (exists i :: 0 <= i < |lines| - 1 && ParseLine(lines[1..][i]) == Malformed)
  {
    if i :| 0 <= i < |lines| && ParseLine(lines[i]) == Malformed {
      assert i > 0 && lines[1..][i - 1] == lines[i];
    }
    if i :| 0 <= i < |lines| - 1 && ParseLine(lines[1..][i]) == Malformed {
      assert lines[i + 1] == lines[1..][i];
    }
  }

  predicate Defines(line: string, k: string) {
    ParseLine(line).Entry? && ParseLine(line).key == k
  }

  /** A key no line defines keeps what the map held. */
  lemma {:induction false} ApplyKeeps(m: RawData, lines: seq<string>, k: string)
    requires forall j :: 0 <= j < |lines| ==> !Defines(lines[j], k)
    ensures (k in Apply(m, lines).0 <==> k in m)
    ensures k in m ==> Apply(m, lines).0[k] == m[k]
    decreases |lines|
  {
    if lines != [] {
      assert !Defines(lines[0], k);
      forall j | 0 <= j < |lines| - 1
        ensures !Defines(lines[1..][j], k)
      {
        assert lines[1..][j] == lines[j + 1];
      }
      match ParseLine(lines[0])
      case Skip => ApplyKeeps(m, lines[1..], k);
      case Malformed =>
      case Entry(k', v) => ApplyKeeps(m[k' := v], lines[1..], k);
    }
  }

  /** After a successful parse a key holds the values of the last line that
      defines it. */
  lemma {:induction false} ApplyLastWins(m: RawData, lines: seq<string>, i: nat)
    requires Apply(m, lines).1 && i < |lines| && ParseLine(lines[i]).Entry?
    requires forall j :: i < j < |lines| ==> !Defines(lines[j], ParseLine(lines[i]).key)
    ensures ParseLine(lines[i]).key in Apply(m, lines).0
    ensures Apply(m, lines).0[ParseLine(lines[i]).key] == ParseLine(lines[i]).values
    decreases |lines|
  {
    var k := ParseLine(lines[i]).key;
    var rest := lines[1..];
    forall j | 0 <= j < |rest| && i <= j
      ensures !Defines(rest[j], k)
    {
      assert rest[j] == lines[j + 1];
    }
    var first := ParseLine(lines[0]);
    var m' := if first.Entry? then m[first.key := first.values] else m;
    assert first != Malformed;
    assert Apply(m, lines) == Apply(m', rest);
    if i == 0 {
      ApplyKeeps(m', rest, k);
    } else {
      assert rest[i - 1] == lines[i];
      ApplyLastWins(m', rest, i - 1);
    }
  }

  datatype ConfigData = ConfigData(projDirs: set<string>, excludedDirs: set<string>, excludedFiles: set<string>)

  /** What the ConfigData constructor fills in. */
  const DefaultData := ConfigData(
    {"dir1", "dir2"},
    {"/usr/include", "/usr/lib/include", "/usr/include/linux"},
    {"stdio.h", "stdlib.h"})

  /** getFromRawData's lookup: the stored set when the key is present, the
      given default otherwise. */
  function Lookup(m: RawData, key: string, defaultVals: set<string>): (r: set<string>)
    ensures key in m ==> r == m[key]
    ensures key !in m ==> r == defaultVals
  {
    if key in m then m[key] else defaultVals
  }

  /** The fields parse fills from the stored map, falling back to the
      defaults. */
  function Filled(m: RawData): ConfigData {
    ConfigData(
      Lookup(m, "PROJECT_DIRS", DefaultData.projDirs),
      Lookup(m, "EXCLUDE_DIRS", DefaultData.excludedDirs),
      Lookup(m, "EXCLUDE_FILES", DefaultData.excludedFiles))
  }

  /** Parsing a file into an empty map and filling the fields: a field whose
      key no line defines keeps its default, and one whose key is defined
      takes the values of the last such line. */
  lemma FilledFromLines(lines: seq<string>, key: string, i: nat)
    requires Apply(map[], lines).1
    requires key in {"PROJECT_DIRS", "EXCLUDE_DIRS", "EXCLUDE_FILES"}
    requires i < |lines| && Defines(lines[i], key)
    requires forall j :: i < j < |lines| ==> !Defines(lines[j], key)
    ensures key == "PROJECT_DIRS" ==> Filled(Apply(map[], lines).0).projDirs == ParseLine(lines[i]).values
    ensures key == "EXCLUDE_DIRS" ==> Filled(Apply(map[], lines).0).excludedDirs == ParseLine(lines[i]).values
    ensures key == "EXCLUDE_FILES" ==> Filled(Apply(map[], lines).0).excludedFiles == ParseLine(lines[i]).values
  {
    ApplyLastWins(map[], lines, i);
  }

  lemma FilledDefault(lines: seq<string>)
    requires Apply(map[], lines).1
    requires forall j :: 0 <= j < |lines| ==> !Defines(lines[j], "PROJECT_DIRS")
    ensures Filled(Apply(map[], lines).0).projDirs == {"dir1", "dir2"}
  {
    ApplyKeeps(map[], lines, "PROJECT_DIRS");
  }

  /** parseRawData_'s effect on the stored map exactly as written, with the
      keys of ParseLineAsWritten. */
  function ApplyAsWritten(m: RawData, lines: seq<string>): (RawData, bool)
    decreases |lines|
  {
    if lines == [] then (m, true)
    else match ParseLineAsWritten(lines[0])
      case Skip => ApplyAsWritten(m, lines[1..])
      case Malformed => (m, false)
      case Entry(k, v) => ApplyAsWritten(m[k := v], lines[1..])
  }

  predicate StoresAsWritten(line: string, k: string) {
    ParseLineAsWritten(line).Entry? && ParseLineAsWritten(line).key == k
  }

  /** As written, a key absent from the map and stored by no line stays absent. */
  lemma {:induction false} AsWrittenNeverStores(m: RawData, lines: seq<string>, k: string)
    requires k !in m
    requires forall j :: 0 <= j < |lines| ==> !StoresAsWritten(lines[j], k)
    ensures k !in ApplyAsWritten(m, lines).0
    decreases |lines|
  {
    if lines != [] {
      forall j | 0 <= j < |lines| - 1
        ensures !StoresAsWritten(lines[1..][j], k)
      {
        assert lines[1..][j] == lines[j + 1];
      }
      assert !StoresAsWritten(lines[0], k);
      match ParseLineAsWritten(lines[0])
      case Skip => AsWrittenNeverStores(m, lines[1..], k);
      case Malformed =>
      case Entry(k', v) => AsWrittenNeverStores(m[k' := v], lines[1..], k);
    }
  }

  /** The keys parse looks up. */
  const DocumentedKeys: set<string> := {"PROJECT_DIRS", "EXCLUDE_DIRS", "EXCLUDE_FILES"}

  /** Dropping the last character of a documented key never gives one. */
  lemma TruncatedKeysUndocumented(key: string)
    requires key in DocumentedKeys
    ensures key != "" && key[..|key| - 1] !in DocumentedKeys
  {
    if key == "EXCLUDE_FILES" {
      assert key[..|key| - 1][0] == 'E' && key[..|key| - 1][8] == 'F';
      assert "PROJECT_DIRS"[0] == 'P' && "EXCLUDE_DIRS"[8] == 'D';
    } else {
      assert |key[..|key| - 1]| == 11;
    }
  }

  /** As written, no line of such a file stores a documented key. */
  lemma AsWrittenSkipsKey(lines: seq<string>, k: string)
    requires k in DocumentedKeys
    requires forall j :: 0 <= j < |lines| && ParseLine(lines[j]).Entry? ==> ParseLine(lines[j]).key in DocumentedKeys
    ensures forall j :: 0 <= j < |lines| ==> !StoresAsWritten(lines[j], k)
  {
    forall j | 0 <= j < |lines|
      ensures !StoresAsWritten(lines[j], k)
    {
      AsWrittenKey(lines[j]);
      if ParseLine(lines[j]).Entry? {
        TruncatedKeysUndocumented(ParseLine(lines[j]).key);
      }
    }
  }

  /** The class-level consequence of the key at src/ConfigFile.cpp:97: when
      every entry of a file names a documented key, the map built as written
      holds none of them, so parse leaves all three fields at their
      defaults, whatever values the file gives. */
  lemma AsWrittenKeepsDefaults(lines: seq<string>)
    requires forall j :: 0 <= j < |lines| && ParseLine(lines[j]).Entry? ==> ParseLine(lines[j]).key in DocumentedKeys
    ensures Filled(ApplyAsWritten(map[], lines).0) == DefaultData
  {
    AsWrittenSkipsKey(lines, "PROJECT_DIRS");
    AsWrittenSkipsKey(lines, "EXCLUDE_DIRS");
    AsWrittenSkipsKey(lines, "EXCLUDE_FILES");
    AsWrittenNeverStores(map[], lines, "PROJECT_DIRS");
    AsWrittenNeverStores(map[], lines, "EXCLUDE_DIRS");
    AsWrittenNeverStores(map[], lines, "EXCLUDE_FILES");
  }

  class ConfigFile {
    const cfgFilePath: string
    var parseSuccess: bool
    var data: ConfigData
    var parsedRawData: RawData

    constructor (path: string)
      ensures cfgFilePath == path && !parseSuccess
      ensures data == DefaultData && parsedRawData == map[]
    {
      cfgFilePath := path;
      parseSuccess := false;
      data := DefaultData;
      parsedRawData := map[];
    }

    /** parseRawData_ over the lines of the file (as std::getline yields them,
        without the newline): each line is stripped of whitespace and
        comment, skipped when empty, rejected without '=', and otherwise
        stored under its key, replacing any earlier value set. */
    method ParseRawData(lines: seq<string>) returns (ok: bool)
      modifies this`parsedRawData
      ensures (parsedRawData, ok) == Apply(old(parsedRawData), lines)
    {
      var lineNumber := 0;
      while lineNumber < |lines|
        invariant 0 <= lineNumber <= |lines|
        invariant Apply(old(parsedRawData), lines) == Apply(parsedRawData, lines[lineNumber..])
        decreases |lines| - lineNumber
      {
        assert lines[lineNumber..][1..] == lines[lineNumber + 1..];
        var line := RemoveSpaces(lines[lineNumber]);
        line := Uncomment(line);
        assert line == Clean(lines[lineNumber]);
        if line == "" {
          lineNumber := lineNumber + 1;
          continue;
        }
        var foundEq := FindFrom(line, '=', 0);
        if foundEq.None? {
          assert ParseLine(lines[lineNumber]) == Malformed;
          return false;
        }
        var key := line[..foundEq.value];
        var valueSet := ValueSet(line[foundEq.value + 1..]);
        assert ParseLine(lines[lineNumber]) == Entry(key, valueSet);
        parsedRawData := parsedRawData[key := valueSet];
        lineNumber := lineNumber + 1;
      }
      return true;
    }

    function GetFromRawData(key: string, defaultVals: set<string>): (r: set<string>)
      reads this
      ensures r == Lookup(parsedRawData, key, defaultVals)
    {
      if key in parsedRawData then parsedRawData[key] else defaultVals
    }

    /** parse: fails at once when the file does not exist; otherwise records
        the outcome of parseRawData_ and, on success, fills the three fields
        from their keys or the defaults. */
    method Parse(fileExists: bool, lines: seq<string>) returns (ok: bool)
      modifies this`parseSuccess, this`data, this`parsedRawData
      ensures !fileExists ==> !ok && unchanged(this)
      ensures fileExists ==> (parsedRawData, ok) == Apply(old(parsedRawData), lines) && parseSuccess == ok
      ensures ok ==> data == Filled(parsedRawData)
      ensures !ok ==> data == old(data)
    {
      if !fileExists {
        return false;
      }
      parseSuccess := ParseRawData(lines);
      if parseSuccess {
        var defaultData := DefaultData;
        var projDirs := GetFromRawData("PROJECT_DIRS", defaultData.projDirs);
        var excludedDirs := GetFromRawData("EXCLUDE_DIRS", defaultData.excludedDirs);
        var excludedFiles := GetFromRawData("EXCLUDE_FILES", defaultData.excludedFiles);
        data := ConfigData(projDirs, excludedDirs, excludedFiles);
      }
      return parseSuccess;
    }

    function Data(): ConfigData
      reads this
    {
      data
    }
  }
}
