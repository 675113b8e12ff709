/**
 * The SQL intent resolver: from the SQL parser's output (the statement kinds
 * of the AST and the `tableList` strings) to an action-or-bypass
 * classification and the single table the statement touches.
 */
module SqlIntent {
  import opened Wrappers
  import opened Authz

  /** The failures the resolver and its callers raise. */
  datatype ResolveError =
    | ParseFailure          // the SQL parser threw
    | MultipleStatements    // more than one statement in the AST
    | NoStatement           // an empty statement array: reading the kind of a missing statement throws
    | MultipleTables        // more than one entry in `tableList`
    | UnknownStatementKind  // raised only by the fail-closed query gate

  /** The AST as the parser returns it: one statement, or an array of them; only kinds are kept. */
  datatype Ast = Single(kind: string) | Array(kinds: seq<string>)

  /** The parser output the resolver consumes. */
  datatype Parsed = Parsed(ast: Ast, tableList: seq<string>)

  datatype Classification = Bypass | Act(action: Action)

  /** The resolved statement: its table (if any) and its classification (`None` is `undefined`). */
  datatype TableAndAction = TableAndAction(table: Option<string>, action: Option<Classification>)

  const BypassKinds: set<string> := {"use", "create", "alter", "drop"}

  const KnownKinds: set<string> :=
    BypassKinds + {"select", "insert", "replace", "delete", "update"}

  // ---------------------------------------------------------------------------
  // Splitting a `tableList` entry on "::"

  /** `s` holds the delimiter "::" somewhere. */
  predicate ContainsSep(s: string) {
    exists i :: 0 <= i < |s| - 1 && s[i] == ':' && s[i + 1] == ':'
  }

  /**
   * `s` split on the delimiter "::", scanning left to right, as JavaScript's
   * `String.prototype.split` does with a string separator.
   */
  function Split(s: string): (parts: seq<string>)
    ensures |parts| >= 1
    decreases |s|
  {
    if |s| < 2 then [s]
    else if s[0] == ':' && s[1] == ':' then [""] + Split(s[2..])
    else
      var rest := Split(s[1..]);
      [[s[0]] + rest[0]] + rest[1..]
  }

  /** The parts joined back with "::" between them. */
  function Join(parts: seq<string>): string
    requires |parts| >= 1
  {
    if |parts| == 1 then parts[0] else parts[0] + "::" + Join(parts[1..])
  }

  /**
   * Prefixing the first part with a character prefixes the joined string with
   * it. (Automatic induction on `parts` only makes this direct proof slower.)
   */
  lemma {:induction false} JoinConsChar(c: char, parts: seq<string>)
    requires |parts| >= 1
    ensures Join([[c] + parts[0]] + parts[1..]) == [c] + Join(parts)
  {
    var glued := [[c] + parts[0]] + parts[1..];
    if |parts| > 1 {
      var tail := Join(parts[1..]);
      assert glued[1..] == parts[1..];
      assert Join(glued) == [c] + parts[0] + "::" + tail;
      assert [c] + parts[0] + "::" + tail == [c] + (parts[0] + "::" + tail);
    }
  }

  /** Splitting loses nothing: joining the parts gives the input back. */
  lemma {:induction false} JoinSplit(s: string)
    ensures Join(Split(s)) == s
    decreases |s|
  {
    if |s| < 2 {
    } else if s[0] == ':' && s[1] == ':' {
      JoinSplit(s[2..]);
      assert s == "::" + s[2..];
    } else {
      JoinSplit(s[1..]);
      JoinConsChar(s[0], Split(s[1..]));
      assert s == [s[0]] + s[1..];
    }
  }

  /** A string without the delimiter is a single part. */
  lemma {:induction false} SplitWithoutSep(t: string)
    requires !ContainsSep(t)
    ensures Split(t) == [t]
    decreases |t|
  {
    if |t| >= 2 {
      assert !(t[0] == ':' && t[1] == ':');
      forall i | 0 <= i < |t[1..]| - 1
        ensures !(t[1..][i] == ':' && t[1..][i + 1] == ':')
      {
        assert t[1..][i] == t[i + 1] && t[1..][i + 1] == t[i + 2];
      }
      SplitWithoutSep(t[1..]);
      assert t == [t[0]] + t[1..];
    }
  }

  /** A colon-free first segment is cut off at the first delimiter. */
  lemma {:induction false} SplitColonFreeHead(x: string, r: string)
    requires forall i :: 0 <= i < |x| ==> x[i] != ':'
    ensures Split(x + "::" + r) == [x] + Split(r)
    decreases |x|
  {
    if |x| == 0 {
      assert x + "::" + r == "::" + r;
      assert ("::" + r)[2..] == r;
    } else {
      var s := x + "::" + r;
      assert s[0] == x[0] && s[0] != ':';
      assert s[1..] == x[1..] + "::" + r;
      SplitColonFreeHead(x[1..], r);
      assert [x[0]] + x[1..] == x;
    }
  }

  /** The table segment of one `tableList` entry: its third part, if there is one. */
  function ExtractTable(entry: string): (table: Option<string>)
  {
    var parts := Split(entry);
    if |parts| >= 3 then Some(parts[2]) else None
  }

  /**
   * An entry `<verb>::<schema>::<table>` yields its table, when verb and schema
   * hold no colon and the table holds no delimiter.
   */
  lemma ExtractTableOfEntry(verb: string, schema: string, table: string)
    requires forall i :: 0 <= i < |verb| ==> verb[i] != ':'
    requires forall i :: 0 <= i < |schema| ==> schema[i] != ':'
    requires !ContainsSep(table)
    ensures ExtractTable(verb + "::" + schema + "::" + table) == Some(table)
  {
    SplitWithoutSep(table);
    SplitColonFreeHead(schema, table);
    assert verb + "::" + schema + "::" + table == verb + "::" + (schema + "::" + table);
    SplitColonFreeHead(verb, schema + "::" + table);
  }

  /** An entry with fewer than three parts yields no table. */
  lemma ExtractTableShort(entry: string)
    requires !ContainsSep(entry)
    ensures ExtractTable(entry) == None
  {
    SplitWithoutSep(entry);
  }

  /** The parser's encoding of the table in `insert into my_table1 ...`. */
  lemma ExtractTableExample()
    ensures ExtractTable("insert::null::my_table1") == Some("my_table1")
  {
    assert "insert::null::my_table1" == "insert" + "::" + "null" + "::" + "my_table1";
    ExtractTableOfEntry("insert", "null", "my_table1");
  }

  // ---------------------------------------------------------------------------
  // Resolution

  /**
   * The single table of a statement: more than one entry is an error, none
   * gives no table, and one gives the third "::"-separated part of it.
   */
  function ResolveTable(tableList: seq<string>): (r: Result<Option<string>, ResolveError>)
    ensures |tableList| > 1 <==> r == Failure(MultipleTables)
    ensures |tableList| == 0 ==> r == Success(None)
    ensures |tableList| == 1 ==> r == Success(ExtractTable(tableList[0]))
    ensures r.Failure? ==> r.error == MultipleTables
  {
    if |tableList| > 1 then Failure(MultipleTables)
    else if |tableList| == 0 then Success(None)
    else Success(ExtractTable(tableList[0]))
  }

  /** The kind of one statement mapped through `resolveActionOrBypass`'s switch; other kinds fall through. */
  function Classify(kind: string): (c: Option<Classification>)
    ensures c == Some(Bypass) <==> kind in BypassKinds
    ensures c == Some(Act(Select)) <==> kind == "select"
    ensures c == Some(Act(Insert)) <==> kind == "insert" || kind == "replace"
    ensures c == Some(Act(Delete)) <==> kind == "delete"
    ensures c == Some(Act(Update)) <==> kind == "update"
    ensures c == None <==> kind !in KnownKinds
  {
    if kind in BypassKinds then Some(Bypass)
    else if kind == "select" then Some(Act(Select))
    else if kind == "insert" || kind == "replace" then Some(Act(Insert))
    else if kind == "delete" then Some(Act(Delete))
    else if kind == "update" then Some(Act(Update))
    else None
  }

  /** The statements of an AST: a single statement is a one-element list. */
  function Statements(ast: Ast): (kinds: seq<string>)
    ensures ast.Single? ==> kinds == [ast.kind]
    ensures ast.Array? ==> kinds == ast.kinds
  {
    match ast
    case Single(k) => [k]
    case Array(ks) => ks
  }

  /**
   * The classification of a one-statement AST. Several statements are an
   * error; an empty array fails when the missing statement's kind is read.
   */
  function ResolveActionOrBypass(ast: Ast): (r: Result<Option<Classification>, ResolveError>)
    ensures |Statements(ast)| > 1 <==> r == Failure(MultipleStatements)
    ensures |Statements(ast)| == 0 <==> r == Failure(NoStatement)
    ensures |Statements(ast)| == 1 <==> r.Success?
    ensures r.Success? ==> r.value == Classify(Statements(ast)[0])
  {
    var astArray := Statements(ast);
    if |astArray| > 1 then Failure(MultipleStatements)
    else if |astArray| == 0 then Failure(NoStatement)
    else Success(Classify(astArray[0]))
  }

  /** An unrecognised statement kind is never a bypass: it yields no classification at all. */
  lemma UnknownKindNeverBypass(ast: Ast)
    requires |Statements(ast)| == 1 && Statements(ast)[0] !in KnownKinds
    ensures ResolveActionOrBypass(ast) == Success(None)
  {
  }

  /**
   * Both parts of a statement's intent. The classification is resolved first,
   * so its errors win over those of the table list.
   */
  function TableAndActionFromQuery(parsed: Parsed): (r: Result<TableAndAction, ResolveError>)
    ensures r.Success? <==> ResolveActionOrBypass(parsed.ast).Success? && ResolveTable(parsed.tableList).Success?
    ensures ResolveActionOrBypass(parsed.ast).Failure? ==> r == Failure(ResolveActionOrBypass(parsed.ast).error)
    ensures ResolveActionOrBypass(parsed.ast).Success? && ResolveTable(parsed.tableList).Failure? ==>
      r == Failure(MultipleTables)
    ensures r.Success? ==>
      r.value.action == ResolveActionOrBypass(parsed.ast).value && r.value.table == ResolveTable(parsed.tableList).value
  {
    match ResolveActionOrBypass(parsed.ast)
    case Failure(e) => Failure(e)
    case Success(action) =>
      match ResolveTable(parsed.tableList)
      case Failure(e) => Failure(e)
      case Success(table) => Success(TableAndAction(table, action))
  }
}
