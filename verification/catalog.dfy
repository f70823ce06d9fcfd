/**
 * The database catalog: for every table, the file holding its rows and the
 * names of its columns, loaded from the schema file one line per table.
 */
module Catalogs {
  import opened Wrappers
  import opened Text

  /** A file-system path, as the sequence of its name components. */
  datatype Path = Path(components: seq<string>)

  /** Path.resolve(name) for a relative name: one more component. */
  function Resolve(p: Path, name: string): (r: Path)
    ensures |r.components| == |p.components| + 1
    ensures r.components[..|p.components|] == p.components
    ensures r.components[|p.components|..] == [name]
  {
    Path(p.components + [name])
  }

  /** Paths.get(databaseDir, "data"): where the table files live. */
  function DataDir(databaseDir: string): Path {
    Path([databaseDir, "data"])
  }

  /** The extension of a table's data file. */
  const CsvSuffix: string := ".csv"

  /** The catalog's two maps as a value. */
  datatype Contents = Contents(tablePaths: map<string, Path>, schemas: map<string, seq<string>>)

  /**
   * line.trim().split("\\s+"): the whitespace-separated words of the trimmed
   * line, or the single empty token for a blank line.
   */
  function Tokens(line: string): (tokens: seq<string>)
    ensures |tokens| >= 1
    ensures |tokens| >= 2 ==> forall k :: 0 <= k < |tokens| ==> tokens[k] != []
    ensures forall k, j :: 0 <= k < |tokens| && 0 <= j < |tokens[k]| ==> !IsWhitespace(tokens[k][j])
  {
    var t := Trim(line);
    if t == [] then [""]
    else
      var ws := Words(t);
      assert ws != [] by {
        assert !IsWhitespace(t[0]);
        assert Words(t) == [LeadingWord(t)] + Words(t[|LeadingWord(t)|..]);
      }
      ws
  }

  /**
   * The effect of one schema-file line, given its tokens: "Name c1 c2 ..."
   * records the table's file (dataDir/Name.csv) and its column list,
   * replacing any earlier entry for Name; fewer than two tokens change
   * nothing.
   */
  function WithTokens(c: Contents, tokens: seq<string>, dataDir: Path): (r: Contents)
    ensures |tokens| < 2 ==> r == c
    ensures |tokens| >= 2 ==>
      r.tablePaths == c.tablePaths[tokens[0] := Resolve(dataDir, tokens[0] + CsvSuffix)] &&
      r.schemas == c.schemas[tokens[0] := tokens[1..]]
  {
    if |tokens| < 2 then c
    else
      var name := tokens[0];
      Contents(c.tablePaths[name := Resolve(dataDir, name + CsvSuffix)], c.schemas[name := tokens[1..]])
  }

  /** The tokens of every line of the schema file, line by line. */
  function TokenLines(lines: seq<string>): (tls: seq<seq<string>>)
    ensures |tls| == |lines|
    ensures forall k :: 0 <= k < |lines| ==> tls[k] == Tokens(lines[k])
  {
    seq(|lines|, k requires 0 <= k < |lines| => Tokens(lines[k]))
  }

  /** The effect of a sequence of tokenized lines, in order. */
  function Load(c: Contents, tls: seq<seq<string>>, dataDir: Path): Contents
    decreases |tls|
  {
    if tls == [] then c else WithTokens(Load(c, tls[..|tls| - 1], dataDir), tls[|tls| - 1], dataDir)
  }

  /** The effect of the whole schema file, line by line in order. */
  function WithLines(c: Contents, lines: seq<string>, dataDir: Path): Contents {
    Load(c, TokenLines(lines), dataDir)
  }

  /** A line that does not define name leaves name's entries as they were. */
  lemma LaterLineKeeps(c: Contents, tokens: seq<string>, dataDir: Path, name: string)
    requires |tokens| < 2 || tokens[0] != name
    ensures (name in WithTokens(c, tokens, dataDir).schemas) == (name in c.schemas)
    ensures name in c.schemas ==> WithTokens(c, tokens, dataDir).schemas[name] == c.schemas[name]
    ensures (name in WithTokens(c, tokens, dataDir).tablePaths) == (name in c.tablePaths)
    ensures name in c.tablePaths ==> WithTokens(c, tokens, dataDir).tablePaths[name] == c.tablePaths[name]
  {
  }

  /** Tokenized lines none of which defines name leave name's entries as they were. */
  lemma {:induction false} LoadUntouched(c: Contents, tls: seq<seq<string>>, dataDir: Path, name: string)
    requires forall k :: 0 <= k < |tls| ==> |tls[k]| < 2 || tls[k][0] != name
    ensures (name in Load(c, tls, dataDir).schemas) == (name in c.schemas)
    ensures name in c.schemas ==> Load(c, tls, dataDir).schemas[name] == c.schemas[name]
    ensures (name in Load(c, tls, dataDir).tablePaths) == (name in c.tablePaths)
    ensures name in c.tablePaths ==> Load(c, tls, dataDir).tablePaths[name] == c.tablePaths[name]
    decreases |tls|
  {
    if tls != [] {
      var init := tls[..|tls| - 1];
      assert forall k :: 0 <= k < |init| ==> init[k] == tls[k];
      LoadUntouched(c, init, dataDir, name);
      LaterLineKeeps(Load(c, init, dataDir), tls[|tls| - 1], dataDir, name);
    }
  }

  /** The last tokenized line that defines name decides its entries. */
  lemma {:induction false} LoadLastDefinition(c: Contents, tls: seq<seq<string>>, dataDir: Path, i: int, name: string)
    requires 0 <= i < |tls| && |tls[i]| >= 2 && tls[i][0] == name
    requires forall k :: i < k < |tls| ==> |tls[k]| < 2 || tls[k][0] != name
    ensures name in Load(c, tls, dataDir).schemas && name in Load(c, tls, dataDir).tablePaths
    ensures Load(c, tls, dataDir).schemas[name] == tls[i][1..]
    ensures Load(c, tls, dataDir).tablePaths[name] == Resolve(dataDir, name + CsvSuffix)
    decreases |tls|
  {
    var last := |tls| - 1;
    var init := tls[..last];
    if i < last {
      assert forall k :: 0 <= k < |init| ==> init[k] == tls[k];
      LoadLastDefinition(c, init, dataDir, i, name);
      LaterLineKeeps(Load(c, init, dataDir), tls[last], dataDir, name);
    }
  }

  /** A table no line of the schema file defines keeps whatever entry it had before. */
  lemma WithLinesUntouched(c: Contents, lines: seq<string>, dataDir: Path, name: string)
    requires forall k :: 0 <= k < |lines| ==> |Tokens(lines[k])| < 2 || Tokens(lines[k])[0] != name
    ensures (name in WithLines(c, lines, dataDir).schemas) == (name in c.schemas)
    ensures name in c.schemas ==> WithLines(c, lines, dataDir).schemas[name] == c.schemas[name]
    ensures (name in WithLines(c, lines, dataDir).tablePaths) == (name in c.tablePaths)
    ensures name in c.tablePaths ==> WithLines(c, lines, dataDir).tablePaths[name] == c.tablePaths[name]
  {
    LoadUntouched(c, TokenLines(lines), dataDir, name);
  }

  /**
   * The last line that defines a table decides its entry: its file is
   * dataDir/Name.csv and its columns are the rest of that line's tokens.
   */
  lemma WithLinesLastDefinition(c: Contents, lines: seq<string>, dataDir: Path, i: int, name: string)
    requires 0 <= i < |lines| && |Tokens(lines[i])| >= 2 && Tokens(lines[i])[0] == name
    requires forall k :: i < k < |lines| ==> |Tokens(lines[k])| < 2 || Tokens(lines[k])[0] != name
    ensures name in WithLines(c, lines, dataDir).schemas && name in WithLines(c, lines, dataDir).tablePaths
    ensures WithLines(c, lines, dataDir).schemas[name] == Tokens(lines[i])[1..]
    ensures WithLines(c, lines, dataDir).tablePaths[name] == Resolve(dataDir, name + CsvSuffix)
  {
    LoadLastDefinition(c, TokenLines(lines), dataDir, i, name);
  }

  /** Loading n + 1 lines is loading n lines and then line n. */
  lemma WithLinesSnoc(c: Contents, lines: seq<string>, dataDir: Path, n: nat)
    requires n < |lines|
    ensures WithLines(c, lines[..n + 1], dataDir) == WithTokens(WithLines(c, lines[..n], dataDir), Tokens(lines[n]), dataDir)
  {
    var tls := TokenLines(lines[..n + 1]);
    assert tls[..n] == TokenLines(lines[..n]);
  }

  lemma {:induction false} JoinEnds(ws: seq<string>)
    requires |ws| > 0 && forall k :: 0 <= k < |ws| ==> ws[k] != []
    ensures Join(ws, " ") != []
    ensures Join(ws, " ")[0] == ws[0][0]
    ensures Join(ws, " ")[|Join(ws, " ")| - 1] == ws[|ws| - 1][|ws[|ws| - 1]| - 1]
  {
    if |ws| > 1 {
      JoinEnds(ws[1..]);
    }
  }

  /**
   * The schema-file format round-trips: a line written as the table name and
   * its column names separated by single spaces tokenizes back to them, so
   * loading it records exactly those columns.
   */
  lemma SchemaLineTokens(name: string, columns: seq<string>)
    requires name != [] && forall j :: 0 <= j < |name| ==> name[j] > ' '
    requires forall k :: 0 <= k < |columns| ==> columns[k] != []
    requires forall k, j :: 0 <= k < |columns| && 0 <= j < |columns[k]| ==> columns[k][j] > ' '
    ensures Tokens(Join([name] + columns, " ")) == [name] + columns
  {
    var ws := [name] + columns;
    forall k | 0 <= k < |ws|
      ensures ws[k] != [] && forall j :: 0 <= j < |ws[k]| ==> ws[k][j] > ' ' && !IsWhitespace(ws[k][j])
    {
      if k > 0 {
        assert ws[k] == columns[k - 1];
      }
    }
    JoinEnds(ws);
    TrimUnpadded(Join(ws, " "));
    WordsOfJoin(ws);
  }

  /** The catalog of tables: file paths and column lists, filled from the schema file. */
  class DatabaseCatalog {
    var tablePaths: map<string, Path>
    var schemas: map<string, seq<string>>

    function Snapshot(): Contents
      reads this
    {
      Contents(tablePaths, schemas)
    }

    constructor()
      ensures tablePaths == map[] && schemas == map[]
    {
      tablePaths := map[];
      schemas := map[];
    }

    /** addTable: records (or replaces) the file of a table. */
    method AddTable(tableName: string, tablePath: Path)
      modifies this
      ensures tablePaths == old(tablePaths)[tableName := tablePath]
      ensures schemas == old(schemas)
    {
      tablePaths := tablePaths[tableName := tablePath];
    }

    /** getTablePath: the table's file, or null for a table the catalog does not know. */
    function GetTablePath(tableName: string): (p: Option<Path>)
      reads this
      ensures p.Some? <==> tableName in tablePaths
      ensures p.Some? ==> p.value == tablePaths[tableName]
    {
      if tableName in tablePaths then Some(tablePaths[tableName]) else None
    }

    /** addSchema: records (or replaces) the column list of a table. */
    method AddSchema(tableName: string, columns: seq<string>)
      modifies this
      ensures schemas == old(schemas)[tableName := columns]
      ensures tablePaths == old(tablePaths)
    {
      schemas := schemas[tableName := columns];
    }

    /** getSchema: the table's column list, or null for a table the catalog does not know. */
    function GetSchema(tableName: string): (columns: Option<seq<string>>)
      reads this
      ensures columns.Some? <==> tableName in schemas
      ensures columns.Some? ==> columns.value == schemas[tableName]
    {
      if tableName in schemas then Some(schemas[tableName]) else None
    }

    /** parseAndAddTableSchema: one line of the schema file. */
    method ParseAndAddTableSchema(line: string, dataDir: Path)
      modifies this
      ensures Snapshot() == WithTokens(old(Snapshot()), Tokens(line), dataDir)
    {
      var tokens := Tokens(line);
      if |tokens| < 2 {
        return;
      }
      var tableName := tokens[0];
      var columns := tokens[1..];
      var tablePath := Resolve(dataDir, tableName + CsvSuffix);
      AddTable(tableName, tablePath);
      AddSchema(tableName, columns);
    }

    /** initializeCatalog, given the lines of the schema file: every line in order. */
    method InitializeCatalog(databaseDir: string, lines: seq<string>)
      modifies this
      ensures Snapshot() == WithLines(old(Snapshot()), lines, DataDir(databaseDir))
    {
      var dataDir := DataDir(databaseDir);
      ghost var start := Snapshot();
      var i := 0;
      while i < |lines|
        invariant 0 <= i <= |lines|
        invariant Snapshot() == WithLines(start, lines[..i], dataDir)
      {
        WithLinesSnoc(start, lines, dataDir, i);
        ParseAndAddTableSchema(lines[i], dataDir);
        i := i + 1;
      }
      assert lines[..i] == lines;
    }
  }
}
