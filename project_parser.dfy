/** The header scanner (ProjectParser.cpp): which file names count as
    headers, how an #include line yields the name of the header it pulls in,
    how a scanned file becomes a Node of the Graph, how full header paths
    are made relative to the configured directories, and how the return
    codes of the per-directory scans combine into parse's result. */
module ProjectParser {
  import opened Wrappers
  import opened Text
  import opened DataStructure

  /** is_header_file(path, false): the path ends with ".h" or ".hpp"; an
      extension longer than the path never matches. */
  predicate IsHeaderFile(path: string) {
    EndsWith(path, ".h") || EndsWith(path, ".hpp")
  }

  /** A header file name is a stem followed by one of the two extensions. */
  lemma HeaderFileStem(path: string)
    ensures IsHeaderFile(path) <==>
              (exists stem :: path == stem + ".h") || (exists stem :: path == stem + ".hpp")
  {
    if EndsWith(path, ".h") {
      assert path == path[..|path| - 2] + ".h";
    } else if EndsWith(path, ".hpp") {
      assert path == path[..|path| - 4] + ".hpp";
    }
    if stem :| path == stem + ".h" {
      assert path[|path| - 2..] == ".h";
    }
    if stem :| path == stem + ".hpp" {
      assert path[|path| - 4..] == ".hpp";
    }
  }

  /** The path without the slashes it ends with. */
  function StripTrailingSlashes(p: string): (r: string)
    ensures |r| <= |p| && r == p[..|r|]
    ensures r == "" || r[|r| - 1] != '/'
    ensures forall i :: |r| <= i < |p| ==> p[i] == '/'
  {
    if p != "" && p[|p| - 1] == '/' then StripTrailingSlashes(p[..|p| - 1]) else p
  }

  /** The longest suffix of q without a '/'. */
  function AfterLastSlash(q: string): (r: string)
    ensures |r| <= |q| && r == q[|q| - |r|..]
    ensures '/' !in r
    ensures |r| < |q| ==> q[|q| - |r| - 1] == '/'
  {
    if q == "" then ""
    else if q[|q| - 1] == '/' then ""
    else AfterLastSlash(q[..|q| - 1]) + [q[|q| - 1]]
  }

  lemma {:induction false} AfterLastSlashAppend(q: string, t: string)
    requires '/' !in t
    ensures AfterLastSlash(q + t) == AfterLastSlash(q) + t
    decreases |t|
  {
    if t != "" {
      var t' := t[..|t| - 1];
      assert (q + t)[..|q + t| - 1] == q + t';
      AfterLastSlashAppend(q, t');
      assert t == t' + [t[|t| - 1]];
    } else {
      assert q + t == q;
    }
  }

  /** POSIX basename, the one libgen.h declares: "." for the empty path, "/"
      for a path of slashes only, otherwise the last component once trailing
      slashes are dropped. */
  function Basename(p: string): (r: string)
    ensures r != "" && (r == "/" || '/' !in r)
  {
    if p == "" then "."
    else
      var q := StripTrailingSlashes(p);
      if q == "" then "/" else AfterLastSlash(q)
  }

  /** A path ending in a slash-free extension has the basename of its stem
      with that extension. */
  lemma BasenameWithExtension(stem: string, ext: string)
    requires ext != "" && '/' !in ext
    ensures Basename(stem + ext) == AfterLastSlash(stem) + ext
  {
    var p := stem + ext;
    assert p[|p| - 1] == ext[|ext| - 1];
    assert StripTrailingSlashes(p) == p;
    AfterLastSlashAppend(stem, ext);
  }

  /** A suffix of x + y that starts inside x. */
  lemma SuffixOfAppend(x: string, y: string, i: nat)
    requires i <= |x|
    ensures (x + y)[i..] == x[i..] + y
  {
  }

  /** The basename of a path ending in a header extension ends in it too,
      and ends the path. */
  lemma BasenameKeepsExtension(p: string, ext: string)
    requires (ext == ".h" || ext == ".hpp") && EndsWith(p, ext)
    ensures EndsWith(Basename(p), ext)
    ensures |Basename(p)| <= |p| && Basename(p) == p[|p| - |Basename(p)|..]
  {
    var stem := p[..|p| - |ext|];
    assert p == stem + ext;
    BasenameWithExtension(stem, ext);
    var a := AfterLastSlash(stem);
    SuffixOfAppend(a, ext, |a|);
    SuffixOfAppend(stem, ext, |stem| - |a|);
  }

  /** The basename of a header path is a header file name without
      directories, and ends the path. */
  lemma BasenameOfHeader(p: string)
    requires IsHeaderFile(p)
    ensures IsHeaderFile(Basename(p)) && '/' !in Basename(p)
    ensures |Basename(p)| <= |p| && Basename(p) == p[|p| - |Basename(p)|..]
  {
    if EndsWith(p, ".h") {
      BasenameKeepsExtension(p, ".h");
    } else {
      BasenameKeepsExtension(p, ".hpp");
    }
  }

  /** The two include signatures, in the order of their std::set ('"' sorts
      before '<'). */
  const IncludeSigs: seq<string> := ["#include\"", "#include<"]

  /** The closing delimiter of a signature: '>' for '<', the quote itself
      for '"'. */
  function CloseOf(sig: string): char
    requires sig != []
  {
    if sig[|sig| - 1] == '<' then '>' else sig[|sig| - 1]
  }

  /** What one signature contributes for a whitespace-free line: nothing
      unless the line starts with it and the closing delimiter follows; then
      the basename of the text in between, when that text is not excluded
      and names a header file. */
  function SigInclude(lineStr: string, sig: string, excluded: set<string>): (r: Option<string>)
    requires sig != []
    ensures r.Some? ==> StartsWith(lineStr, sig) && IsHeaderFile(r.value) && '/' !in r.value
  {
    if !StartsWith(lineStr, sig) then None
    else match FindFrom(lineStr, CloseOf(sig), |sig|)
      case None => None
      case Some(p) =>
        var h := lineStr[|sig|..p];
        if h !in excluded && IsHeaderFile(h) then
          BasenameOfHeader(h);
          Some(Basename(h))
        else None
  }

  function OptionSet(o: Option<string>): set<string> {
    if o.Some? then {o.value} else {}
  }

  /** The names the signatures in sigs contribute, the last one last. */
  function SigsIncludes(lineStr: string, sigs: seq<string>, excluded: set<string>): (r: set<string>)
    requires forall k :: 0 <= k < |sigs| ==> sigs[k] != []
    ensures forall x :: x in r ==> IsHeaderFile(x) && '/' !in x
  {
    if sigs == [] then {}
    else SigsIncludes(lineStr, sigs[..|sigs| - 1], excluded) + OptionSet(SigInclude(lineStr, sigs[|sigs| - 1], excluded))
  }

  /** The headers one raw line of a file includes: nothing for a line that
      starts with "//" once whitespace is removed. */
  function LineIncludes(raw: string, excluded: set<string>): (r: set<string>)
    ensures forall x :: x in r ==> IsHeaderFile(x) && '/' !in x
  {
    var lineStr := RemoveSpaces(raw);
    if StartsWith(lineStr, "//") then {} else SigsIncludes(lineStr, IncludeSigs, excluded)
  }

  /** The headers a sequence of lines includes. */
  function FileIncludes(lines: seq<string>, excluded: set<string>): (r: set<string>)
    ensures forall x :: x in r ==> IsHeaderFile(x) && '/' !in x
  {
    if lines == [] then {}
    else FileIncludes(lines[..|lines| - 1], excluded) + LineIncludes(lines[|lines| - 1], excluded)
  }

  /** A file's includes are those of its parts. */
  lemma {:induction false} FileIncludesAppend(a: seq<string>, b: seq<string>, excluded: set<string>)
    ensures FileIncludes(a + b, excluded) == FileIncludes(a, excluded) + FileIncludes(b, excluded)
    decreases |b|
  {
    if b == [] {
      assert a + b == a;
    } else {
      var b' := b[..|b| - 1];
      assert (a + b)[..|a + b| - 1] == a + b';
      FileIncludesAppend(a, b', excluded);
    }
  }

  /** The two signatures' contributions, side by side. */
  lemma SigsIncludesBoth(lineStr: string, excluded: set<string>)
    ensures SigsIncludes(lineStr, IncludeSigs, excluded) ==
              OptionSet(SigInclude(lineStr, IncludeSigs[0], excluded)) + OptionSet(SigInclude(lineStr, IncludeSigs[1], excluded))
  {
    var sigs := IncludeSigs;
    var first := sigs[..1];
    assert first[..0] == [] && first[0] == sigs[0] && sigs[..|sigs| - 1] == first;
    assert SigsIncludes(lineStr, first, excluded) == OptionSet(SigInclude(lineStr, sigs[0], excluded));
  }

  /** A signature, a name without the closing delimiter, and the closing
      delimiter: the name is taken when it is a header not excluded. */
  lemma SigIncludeWritten(sig: string, name: string, excluded: set<string>)
    requires sig != [] && CloseOf(sig) !in name
    ensures SigInclude(sig + name + [CloseOf(sig)], sig, excluded) ==
              if name !in excluded && IsHeaderFile(name) then Some(Basename(name)) else None
  {
    var close := CloseOf(sig);
    var line := sig + name + [close];
    assert line[..|sig|] == sig;
    assert forall k :: |sig| <= k < |sig| + |name| ==> line[k] == name[k - |sig|];
    assert line[|sig| + |name|] == close;
    FindFirst(line, close, |sig|, |sig| + |name|);
    assert line[|sig|..|sig| + |name|] == name;
  }

  /** A line written #include"name" or #include<name> (no whitespace, the
      closing delimiter absent from the name) records the basename of a
      header name exactly when the name is not excluded. */
  lemma IncludeLine(name: string, angle: bool, excluded: set<string>)
    requires NoSpaces(name) && IsHeaderFile(name)
    requires if angle then '>' !in name else '"' !in name
    ensures var line := (if angle then "#include<" else "#include\"") + name + (if angle then ">" else "\"");
            LineIncludes(line, excluded) == if name in excluded then {} else {Basename(name)}
  {
    var sig := if angle then IncludeSigs[1] else IncludeSigs[0];
    var other := if angle then IncludeSigs[0] else IncludeSigs[1];
    var close := CloseOf(sig);
    var line := sig + name + [close];
    assert line == (if angle then "#include<" else "#include\"") + name + (if angle then ">" else "\"");
    assert NoSpaces(line) by {
      forall i | 0 <= i < |line|
        ensures !IsSpace(line[i])
      {
        if |sig| <= i < |sig| + |name| {
          assert line[i] == name[i - |sig|];
        }
      }
    }
    RemoveSpacesNoSpaces(line);
    assert !StartsWith(line, "//") by {
      assert line[0] == '#';
    }
    SigIncludeWritten(sig, name, excluded);
    assert SigInclude(line, other, excluded) == None by {
      assert line[8] != other[8];
    }
    SigsIncludesBoth(line, excluded);
  }

  /** A commented-out line, whatever whitespace precedes the "//",
      includes nothing. */
  lemma CommentedLine(pre: string, rest: string, excluded: set<string>)
    requires forall i :: 0 <= i < |pre| ==> IsSpace(pre[i])
    ensures LineIncludes(pre + "//" + rest, excluded) == {}
  {
    RemoveSpacesDropsSpaces([], pre, "//" + rest);
    assert [] + pre + ("//" + rest) == pre + "//" + rest;
    assert [] + ("//" + rest) == "//" + rest;
    RemoveSpacesAppend("//", rest);
    var s := RemoveSpaces(pre + "//" + rest);
    assert s == RemoveSpaces("//") + RemoveSpaces(rest);
    assert RemoveSpaces("//") == "//";
    assert s[..2] == "//";
  }

  /** Only the first 2000 lines of a file are examined. */
  const MaxLines := 2000

  function FirstLines(lines: seq<string>): (r: seq<string>)
    ensures |r| <= MaxLines && |r| <= |lines| && r == lines[..|r|]
    ensures |lines| <= MaxLines ==> r == lines
  {
    if |lines| <= MaxLines then lines else lines[..MaxLines]
  }

  /** The inner loop of process_header_file over the two signatures, for one
      whitespace-free line. */
  method ExtractIncludes(lineStr: string, excluded: set<string>) returns (found: set<string>)
    ensures found == SigsIncludes(lineStr, IncludeSigs, excluded)
  {
    found := {};
    for k := 0 to |IncludeSigs|
      invariant found == SigsIncludes(lineStr, IncludeSigs[..k], excluded)
    {
      assert IncludeSigs[..k + 1][..k] == IncludeSigs[..k];
      var sig := IncludeSigs[k];
      if !StartsWith(lineStr, sig) {
        continue;
      }
      var openBracket := sig[|sig| - 1];
      var closeBracket := if openBracket == '<' then '>' else openBracket;
      var foundPos := FindFrom(lineStr, closeBracket, |sig|);
      if foundPos.None? {
        continue;
      }
      var includedHeader := lineStr[|sig|..foundPos.value];
      if includedHeader !in excluded {
        if IsHeaderFile(includedHeader) {
          includedHeader := Basename(includedHeader);
          found := found + {includedHeader};
        }
      }
    }
    assert IncludeSigs[..|IncludeSigs|] == IncludeSigs;
  }

  /** process_header_file over the file's lines: a Node named by the file's
      basename whose children are the headers its first 2000 lines include,
      inserted into the Graph (dropped when that basename is already there). */
  method ProcessHeaderFile(filePath: string, lines: seq<string>, excluded: set<string>, output: Graph)
    returns (result: Graph)
    ensures result == Insert(output, Node(Basename(filePath), FileIncludes(FirstLines(lines), excluded)))
  {
    var fileNode := NewNode(Basename(filePath));
    var lineNum := 0;
    while lineNum < |lines| && lineNum < MaxLines
      invariant 0 <= lineNum <= |lines| && lineNum <= MaxLines
      invariant fileNode == Node(Basename(filePath), FileIncludes(lines[..lineNum], excluded))
      decreases |lines| - lineNum
    {
      assert lines[..lineNum + 1][..lineNum] == lines[..lineNum];
      var lineStr := RemoveSpaces(lines[lineNum]);
      lineNum := lineNum + 1;
      if StartsWith(lineStr, "//") {
        continue;
      }
      var found := ExtractIncludes(lineStr, excluded);
      fileNode := fileNode.(childNodes := fileNode.childNodes + found);
    }
    assert lines[..lineNum] == FirstLines(lines);
    result := Insert(output, fileNode);
  }

  /** Lines past the 2000th make no difference to the Node of a file. */
  lemma LinesPastLimitIgnored(lines: seq<string>, more: seq<string>)
    requires |lines| >= MaxLines
    ensures FirstLines(lines + more) == FirstLines(lines)
  {
    assert (lines + more)[..MaxLines] == lines[..MaxLines];
  }

  /** The header with the leading slashes removed. */
  function StripLeadingSlashes(s: string): (r: string)
    ensures |r| <= |s| && r == s[|s| - |r|..]
    ensures r == "" || r[0] != '/'
    ensures forall i :: 0 <= i < |s| - |r| ==> s[i] == '/'
  {
    if s != "" && s[0] == '/' then StripLeadingSlashes(s[1..]) else s
  }

  /** The header made relative: the first directory of dirs that is a
      textual prefix of it is removed, then its leading slashes; a header no
      directory prefixes is kept whole. */
  function Relative(header: string, dirs: seq<string>): string {
    if dirs == [] then header
    else if |header| < |dirs[0]| then Relative(header, dirs[1..])
    else if header[..|dirs[0]|] == dirs[0] then StripLeadingSlashes(header[|dirs[0]|..])
    else Relative(header, dirs[1..])
  }

  /** With the first matching directory at position i, the header loses
      that directory and the slashes after it. */
  lemma {:induction false} RelativeFirstPrefix(header: string, dirs: seq<string>, i: nat)
    requires i < |dirs| && StartsWith(header, dirs[i])
    requires forall j :: 0 <= j < i ==> !StartsWith(header, dirs[j])
    ensures Relative(header, dirs) == StripLeadingSlashes(header[|dirs[i]|..])
  {
    if i > 0 {
      assert !StartsWith(header, dirs[0]);
      RelativeFirstPrefix(header, dirs[1..], i - 1);
    }
  }

  /** With no directory a prefix, the header is unchanged. */
  lemma {:induction false} RelativeNoPrefix(header: string, dirs: seq<string>)
    requires forall j :: 0 <= j < |dirs| ==> !StartsWith(header, dirs[j])
    ensures Relative(header, dirs) == header
  {
    if dirs != [] {
      assert !StartsWith(header, dirs[0]);
      RelativeNoPrefix(header, dirs[1..]);
    }
  }

  /** The body of generateHeaderList's loop for one header. */
  method RelativeHeader(fullPath: string, dirs: seq<string>) returns (header: string)
    ensures header == Relative(fullPath, dirs)
  {
    header := fullPath;
    var k := 0;
    while k < |dirs|
      invariant 0 <= k <= |dirs| && header == fullPath
      invariant Relative(fullPath, dirs) == Relative(fullPath, dirs[k..])
    {
      assert dirs[k..][1..] == dirs[k + 1..];
      var dirPath := dirs[k];
      if |header| < |dirPath| {
        k := k + 1;
        continue;
      } else if header[..|dirPath|] == dirPath {
        header := header[|dirPath|..];
        while header != [] && header[0] == '/'
          invariant StripLeadingSlashes(header) == StripLeadingSlashes(fullPath[|dirPath|..])
        {
          header := header[1..];
        }
        return;
      }
      k := k + 1;
    }
  }

  /** generateHeaderList once the directory walk has produced the full
      paths: each made relative to the directories taken in their std::set
      order. */
  method GenerateHeaderList(dirs: set<string>, fullPathHeaders: set<string>) returns (headerFiles: set<string>)
    ensures headerFiles == set h | h in fullPathHeaders :: Relative(h, SortedStrings(dirs))
  {
    headerFiles := {};
    var order := SortedStrings(dirs);
    var todo := fullPathHeaders;
    while todo != {}
      invariant todo <= fullPathHeaders
      invariant headerFiles == set h | h in fullPathHeaders - todo :: Relative(h, order)
      decreases |todo|
    {
      var header :| header in todo;
      var rel := RelativeHeader(header, order);
      headerFiles := headerFiles + {rel};
      todo := todo - {header};
    }
  }

  /** int in C++: 32 bits, two's complement. */
  newtype int32 = x: int | -0x8000_0000 <= x < 0x8000_0000

  function Pow2(n: nat): (r: nat)
    ensures r >= 1
  {
    if n == 0 then 1 else 2 * Pow2(n - 1)
  }

  /** Bitwise or of two naturals, lowest bit first. */
  function OrBits(a: nat, b: nat): nat
    decreases a + b
  {
    if a == 0 then b
    else if b == 0 then a
    else 2 * OrBits(a / 2, b / 2) + (if a % 2 == 1 || b % 2 == 1 then 1 else 0)
  }

  /** Or-ing in bits never clears one: the result is at least either side. */
  lemma {:induction false} OrBitsCovers(a: nat, b: nat)
    ensures OrBits(a, b) >= a && OrBits(a, b) >= b
    decreases a + b
  {
    if a != 0 && b != 0 {
      OrBitsCovers(a / 2, b / 2);
    }
  }

  /** ... and sets no bit above the widest side. */
  lemma {:induction false} OrBitsBelow(a: nat, b: nat, n: nat)
    requires a < Pow2(n) && b < Pow2(n)
    ensures OrBits(a, b) < Pow2(n)
    decreases n
  {
    if a != 0 && b != 0 {
      OrBitsBelow(a / 2, b / 2, n - 1);
    }
  }

  const TwoTo31: nat := 0x8000_0000
  const TwoTo32: nat := 0x1_0000_0000

  /** The bit pattern of an int, read as an unsigned number. */
  function Unsigned(x: int32): (u: nat)
    ensures u < TwoTo32 && (u >= TwoTo31 <==> x < 0)
  {
    if x >= 0 then x as nat else (x as int + TwoTo32) as nat
  }

  /** The int a 32-bit pattern stands for. */
  function Signed(u: nat): (x: int32)
    requires u < TwoTo32
    ensures x < 0 <==> u >= TwoTo31
  {
    if u < TwoTo31 then u as int32 else (u as int - TwoTo32) as int32
  }

  lemma {:induction false} Pow2Add(a: nat, b: nat)
    ensures Pow2(a + b) == Pow2(a) * Pow2(b)
  {
    if a > 0 {
      Pow2Add(a - 1, b);
    }
  }

  lemma Pow2Constants()
    ensures Pow2(31) == TwoTo31 && Pow2(32) == TwoTo32
  {
    assert Pow2(4) == 16;
    Pow2Add(4, 4);
    Pow2Add(8, 8);
    Pow2Add(16, 16);
    Pow2Add(1, 31);
  }

  /** Or-ing two 32-bit patterns gives a 32-bit pattern whose top bit is
      set exactly when either one's is. */
  lemma OrBitsSign(u: nat, v: nat)
    requires u < TwoTo32 && v < TwoTo32
    ensures OrBits(u, v) < TwoTo32
    ensures OrBits(u, v) >= TwoTo31 <==> u >= TwoTo31 || v >= TwoTo31
  {
    Pow2Constants();
    OrBitsCovers(u, v);
    OrBitsBelow(u, v, 32);
    if u < TwoTo31 && v < TwoTo31 {
      OrBitsBelow(u, v, 31);
    }
  }

  /** The |= operator on two ints: negative exactly when either side is. */
  function Or32(a: int32, b: int32): (r: int32)
    ensures r < 0 <==> a < 0 || b < 0
  {
    OrBitsSign(Unsigned(a), Unsigned(b));
    Signed(OrBits(Unsigned(a), Unsigned(b)))
  }

  /** What parse_one_dir did for one directory: its return code and the
      Nodes it inserted, in order. */
  datatype DirResult = DirResult(code: int32, nodes: seq<Node>)

  /** Graph::insert applied to each Node in turn. */
  function InsertAll(g: Graph, nodes: seq<Node>): (r: Graph)
    ensures g <= r
    ensures r == {} <==> g == {} && nodes == []
    decreases |nodes|
  {
    if nodes == [] then g else InsertAll(Insert(g, nodes[0]), nodes[1..])
  }

  /** parse's loop from a given point: the Graph grows by each directory's
      Nodes; a negative code is ORed in and stops the loop, a positive code
      replaces the running one. */
  function ParseLoop(results: seq<DirResult>, g: Graph, retVal: int32): (Graph, int32)
    decreases |results|
  {
    if results == [] then (g, retVal)
    else
      var g' := InsertAll(g, results[0].nodes);
      var code := results[0].code;
      if code < 0 then (g', Or32(retVal, code))
      else if code > 0 then ParseLoop(results[1..], g', code)
      else ParseLoop(results[1..], g', retVal)
  }

  /** parse: the Graph starts empty, and 2 is ORed into the code when no
      Node was found at all. */
  function ParseResult(results: seq<DirResult>): (Graph, int32) {
    var (g, retVal) := ParseLoop(results, {}, 0);
    (g, if g == {} then Or32(retVal, 2) else retVal)
  }

  /** ProjectParser::parse, the directories' scans given as their results in
      the std::set order of the directory names. */
  method Parse(results: seq<DirResult>) returns (retVal: int32, output: Graph)
    ensures (output, retVal) == ParseResult(results)
  {
    retVal := 0;
    output := {};
    var i := 0;
    while i < |results|
      invariant 0 <= i <= |results|
      invariant ParseLoop(results, {}, 0) == ParseLoop(results[i..], output, retVal)
      decreases |results| - i
    {
      assert results[i..][1..] == results[i + 1..];
      output := InsertAll(output, results[i].nodes);
      var helperRetval := results[i].code;
      if 0 > helperRetval {
        retVal := Or32(retVal, helperRetval);
        break;
      } else if 0 < helperRetval {
        retVal := helperRetval;
        i := i + 1;
        continue;
      }
      i := i + 1;
    }
    if output == {} {
      retVal := Or32(retVal, 2);
    }
  }

  predicate SomeMissing(results: seq<DirResult>) {
    exists i :: 0 <= i < |results| && results[i].code == 1
  }

  function AllNodes(results: seq<DirResult>): seq<Node> {
    if results == [] then [] else results[0].nodes + AllNodes(results[1..])
  }

  lemma {:induction false} InsertAllAppend(g: Graph, a: seq<Node>, b: seq<Node>)
    ensures InsertAll(g, a + b) == InsertAll(InsertAll(g, a), b)
    decreases |a|
  {
    if a == [] {
      assert a + b == b;
    } else {
      assert (a + b)[1..] == a[1..] + b;
      InsertAllAppend(Insert(g, a[0]), a[1..], b);
    }
  }

  lemma {:induction false} ParseLoopCodes(results: seq<DirResult>, g: Graph, retVal: int32)
    requires retVal == 0 || retVal == 1
    requires forall i :: 0 <= i < |results| ==> results[i].code == 0 || results[i].code == 1
    ensures ParseLoop(results, g, retVal).0 == InsertAll(g, AllNodes(results))
    ensures ParseLoop(results, g, retVal).1 == if retVal == 1 || SomeMissing(results) then 1 else 0
    decreases |results|
  {
    if results != [] {
      var r := results[0];
      forall i | 0 <= i < |results| - 1
        ensures results[1..][i].code == 0 || results[1..][i].code == 1
      {
        assert results[1..][i] == results[i + 1];
      }
      ParseLoopCodes(results[1..], InsertAll(g, r.nodes), if r.code == 1 then 1 else retVal);
      InsertAllAppend(g, r.nodes, AllNodes(results[1..]));
      if SomeMissing(results[1..]) {
        var i :| 0 <= i < |results[1..]| && results[1..][i].code == 1;
        assert results[i + 1].code == 1;
      }
      if SomeMissing(results) && r.code != 1 {
        var i :| 0 <= i < |results| && results[i].code == 1;
        assert results[1..][i - 1] == results[i];
      }
    }
  }

  /** The documented codes: when every directory scan returns 0 or 1 (as
      parse_one_dir does when it has no negative code to pass on), parse
      returns 1 when some directory is missing, plus 2 when no header was
      found. */
  lemma ParseDocumentedCodes(results: seq<DirResult>)
    requires forall i :: 0 <= i < |results| ==> results[i].code == 0 || results[i].code == 1
    ensures ParseResult(results).0 == InsertAll({}, AllNodes(results))
    ensures ParseResult(results).1 ==
              (if SomeMissing(results) then 1 else 0) + (if ParseResult(results).0 == {} then 2 else 0)
  {
    ParseLoopCodes(results, {}, 0);
    var c := ParseLoop(results, {}, 0).1;
    assert Or32(0, 2) == 2 && Or32(1, 2) == 3;
  }

  /** A negative code stops the scan: the result is negative and the later
      directories make no difference. */
  lemma {:induction false} ParseStopsAtNegative(results: seq<DirResult>, more: seq<DirResult>, g: Graph, retVal: int32)
    requires retVal >= 0
    requires exists i :: 0 <= i < |results| && results[i].code < 0
    ensures ParseLoop(results + more, g, retVal) == ParseLoop(results, g, retVal)
    ensures ParseLoop(results, g, retVal).1 < 0
    decreases |results|
  {
    var i :| 0 <= i < |results| && results[i].code < 0;
    assert (results + more)[0] == results[0];
    if i > 0 {
      assert (results + more)[1..] == results[1..] + more;
      assert results[1..][i - 1] == results[i];
      var r := results[0];
      var g' := InsertAll(g, r.nodes);
      if r.code > 0 {
        ParseStopsAtNegative(results[1..], more, g', r.code);
      } else if r.code == 0 {
        ParseStopsAtNegative(results[1..], more, g', retVal);
      }
    }
  }
}
