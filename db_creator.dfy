/**
 * `DBCreator` of database/db_creator.py: validation of the table name and of the
 * column names and types, the fields stored by `__init__`, and the text of the
 * `CREATE TABLE` statement built by `create_table` (its execution is not modelled).
 *
 * The column dictionary is modelled by its `items()`, in insertion order.
 */
module DbCreator {
  import opened Wrappers
  import opened Strings

  datatype Column = Column(name: string, colType: string)

  /** The three fields a `DBCreator` holds once `__init__` returned. */
  datatype Creator = Creator(dbName: string, tableName: string, columns: seq<Column>)

  /** The three `ValueError`s the validators raise. */
  datatype CreatorError =
    | InvalidTableName(name: string)
    | InvalidColumnName(name: string)
    | InvalidColumnType(name: string, colType: string)

  /** The text of each `ValueError`. */
  function Message(e: CreatorError): string
  {
    match e
    case InvalidTableName(name) => "Invalid table name: " + name
    case InvalidColumnName(name) => "Invalid column name: " + name
    case InvalidColumnType(name, colType) => "Invalid column type for " + name + ": " + colType
  }

  // ---------------------------------------------------------------------------
  // VALID_COLUMN_NAME = re.compile(r"^[a-zA-Z_][a-zA-Z0-9_]*$")

  predicate IsLetter(ch: char)
  {
    'a' <= ch <= 'z' || 'A' <= ch <= 'Z'
  }

  predicate IsWordChar(ch: char)
  {
    IsLetter(ch) || '0' <= ch <= '9' || ch == '_'
  }

  /** `[a-zA-Z0-9_]*$` from position `i` on; Python's `$` also matches just before a final newline. */
  predicate MatchesTail(s: string, i: nat)
    requires i <= |s|
    decreases |s| - i
  {
    if i == |s| then true
    else if i == |s| - 1 && s[i] == '\n' then true
    else IsWordChar(s[i]) && MatchesTail(s, i + 1)
  }

  /** `VALID_COLUMN_NAME.match(s)` succeeds. */
  predicate MatchesValidName(s: string)
    ensures IsIdentifier(s) ==> MatchesValidName(s)
  {
    |s| > 0 && (IsLetter(s[0]) || s[0] == '_') && (MatchesTailIff(s, 1); MatchesTail(s, 1))
  }

  /** An ASCII identifier: a letter or `_`, then letters, digits or `_`. */
  predicate IsIdentifier(s: string)
  {
    |s| > 0 && (IsLetter(s[0]) || s[0] == '_') && forall k :: 1 <= k < |s| ==> IsWordChar(s[k])
  }

  lemma {:induction false} MatchesTailIff(s: string, i: nat)
    requires i <= |s|
    ensures MatchesTail(s, i) <==>
      (forall k :: i <= k < |s| ==> IsWordChar(s[k])) ||
      (i < |s| && s[|s| - 1] == '\n' && forall k :: i <= k < |s| - 1 ==> IsWordChar(s[k]))
    decreases |s| - i
  {
    if i < |s| {
      MatchesTailIff(s, i + 1);
    }
  }

  /**
   * The pattern accepts exactly the identifiers, and the identifiers followed by
   * one newline (`$` matches before a trailing `\n`).
   */
  lemma ValidNameIff(s: string)
    ensures MatchesValidName(s) <==>
      IsIdentifier(s) || (|s| >= 2 && s[|s| - 1] == '\n' && IsIdentifier(s[..|s| - 1]))
  {
    if |s| > 0 {
      MatchesTailIff(s, 1);
    }
  }

  /** `"a\n"` passes the check, although it is not an identifier. */
  lemma TrailingNewlineAccepted()
    ensures MatchesValidName("a\n") && !IsIdentifier("a\n")
  {
    ValidNameIff("a\n");
    assert "a\n"[..1] == "a";
  }

  /** `"1bad"` is rejected. */
  lemma LeadingDigitRejected()
    ensures !MatchesValidName("1bad")
  {
  }

  /** An accepted name holds no blank, comma, parenthesis or semicolon. */
  lemma ValidNameHasNoPunctuation(s: string)
    requires MatchesValidName(s)
    ensures ' ' !in s && ',' !in s && '(' !in s && ')' !in s && ';' !in s
  {
    ValidNameIff(s);
    if |s| >= 2 && s[|s| - 1] == '\n' && IsIdentifier(s[..|s| - 1]) {
      assert forall k :: 0 <= k < |s| - 1 ==> s[k] == s[..|s| - 1][k];
    }
  }

  // ---------------------------------------------------------------------------
  // Column types

  const ValidTypes: set<string> := {"TEXT", "TIMESTAMP", "REAL", "INTEGER"}

  function UpperChar(ch: char): char
  {
    if 'a' <= ch <= 'z' then (ch as int - 32) as char else ch
  }

  /** `str.upper()` on ASCII text. */
  function Upper(s: string): (u: string)
    ensures |u| == |s| && forall k :: 0 <= k < |s| ==> u[k] == UpperChar(s[k])
  {
    if |s| == 0 then "" else [UpperChar(s[0])] + Upper(s[1..])
  }

  /** `col_type.upper() in valid_types`. */
  predicate ValidType(t: string)
    ensures ValidType(t) ==> |t| == 4 || |t| == 7 || |t| == 9
  {
    Upper(t) in ValidTypes
  }

  /** The type check ignores case: `integer` and `Real` pass, `VARCHAR` does not. */
  lemma TypeCheckIgnoresCase()
    ensures ValidType("integer") && ValidType("Real")
    ensures !ValidType("VARCHAR")
  {
    assert Upper("integer") == "INTEGER";
    assert Upper("Real") == "REAL";
    assert Upper("VARCHAR") == "VARCHAR";
  }

  /** Two type names that differ only in the case of ASCII letters are accepted or rejected together. */
  lemma TypeCheckCaseInsensitive(t: string, u: string)
    requires |t| == |u| && forall k :: 0 <= k < |t| ==> UpperChar(t[k]) == UpperChar(u[k])
    ensures ValidType(t) <==> ValidType(u)
  {
    assert Upper(t) == Upper(u);
  }

  predicate AllUpperLetters(w: string)
  {
    forall k :: 0 <= k < |w| ==> 'A' <= w[k] <= 'Z'
  }

  /** An accepted type is made of ASCII letters only. */
  lemma ValidTypeIsLetters(t: string)
    requires ValidType(t)
    ensures forall k :: 0 <= k < |t| ==> IsLetter(t[k])
  {
    var u := Upper(t);
    assert AllUpperLetters(u) by {
      assert AllUpperLetters("TEXT") && AllUpperLetters("TIMESTAMP");
      assert AllUpperLetters("REAL") && AllUpperLetters("INTEGER");
    }
    forall k | 0 <= k < |t|
      ensures IsLetter(t[k])
    {
      assert 'A' <= UpperChar(t[k]) <= 'Z';
    }
  }

  // ---------------------------------------------------------------------------
  // The validators and __init__

  /** `_validate_table_name`: the name is returned unchanged, or `ValueError` naming it is raised. */
  function ValidateTableName(name: string): (r: Result<string, CreatorError>)
    ensures r.Success? <==> MatchesValidName(name)
    ensures r.Success? ==> r.value == name
    ensures r.Failure? ==> r.error == InvalidTableName(name)
    ensures r.Failure? ==> Message(r.error) == "Invalid table name: " + name
  {
    if MatchesValidName(name) then Success(name) else Failure(InvalidTableName(name))
  }

  predicate ColumnOk(c: Column)
  {
    MatchesValidName(c.name) && ValidType(c.colType)
  }

  /** The error a failing column raises: its name is checked before its type. */
  function Offence(c: Column): (e: CreatorError)
    ensures !MatchesValidName(c.name) ==> Message(e) == "Invalid column name: " + c.name
    ensures MatchesValidName(c.name) ==> Message(e) == "Invalid column type for " + c.name + ": " + c.colType
  {
    if !MatchesValidName(c.name) then InvalidColumnName(c.name) else InvalidColumnType(c.name, c.colType)
  }

  /** Column `k` is the first one that fails. */
  predicate FirstOffender(cols: seq<Column>, k: nat)
  {
    k < |cols| && !ColumnOk(cols[k]) && forall j :: 0 <= j < k ==> ColumnOk(cols[j])
  }

  /** `_validate_columns`: the columns are returned unchanged exactly when every one passes. */
  function ValidateColumns(cols: seq<Column>): (r: Result<seq<Column>, CreatorError>)
    ensures r.Success? <==> forall k :: 0 <= k < |cols| ==> ColumnOk(cols[k])
    ensures r.Success? ==> r.value == cols
  {
    if |cols| == 0 then Success(cols)
    else if !MatchesValidName(cols[0].name) then Failure(InvalidColumnName(cols[0].name))
    else if !ValidType(cols[0].colType) then Failure(InvalidColumnType(cols[0].name, cols[0].colType))
    else
      match ValidateColumns(cols[1..])
      case Success(_) => Success(cols)
      case Failure(e) => Failure(e)
  }

  /** The loop stops at the first failing column, in insertion order, and reports its offence. */
  lemma {:induction false} ValidateColumnsFirstOffender(cols: seq<Column>)
    requires ValidateColumns(cols).Failure?
    ensures exists k: nat :: FirstOffender(cols, k) && ValidateColumns(cols).error == Offence(cols[k])
  {
    if ColumnOk(cols[0]) {
      ValidateColumnsFirstOffender(cols[1..]);
      var k: nat :| FirstOffender(cols[1..], k) && ValidateColumns(cols[1..]).error == Offence(cols[1..][k]);
      assert FirstOffender(cols, k + 1);
    } else {
      assert FirstOffender(cols, 0);
    }
  }

  /** Every field of a `Creator` has passed validation. */
  predicate ValidCreator(c: Creator)
  {
    MatchesValidName(c.tableName) && forall k :: 0 <= k < |c.columns| ==> ColumnOk(c.columns[k])
  }

  /**
   * `DBCreator(db_name, table_name, columns)`: stores `db_name + '.db'`, then
   * validates the table name, then the columns; the first failure raises.
   */
  function NewCreator(dbName: string, tableName: string, columns: seq<Column>): (r: Result<Creator, CreatorError>)
    ensures !MatchesValidName(tableName) ==> r == Failure(InvalidTableName(tableName))
    ensures MatchesValidName(tableName) ==>
      (r.Success? <==> forall k :: 0 <= k < |columns| ==> ColumnOk(columns[k]))
    ensures MatchesValidName(tableName) && r.Failure? ==>
      exists k: nat :: FirstOffender(columns, k) && r.error == Offence(columns[k])
    ensures r.Success? ==> r.value == Creator(dbName + ".db", tableName, columns) && ValidCreator(r.value)
  {
    match ValidateTableName(tableName)
    case Failure(e) => Failure(e)
    case Success(t) =>
      match ValidateColumns(columns)
      case Failure(e) =>
        ValidateColumnsFirstOffender(columns);
        Failure(e)
      case Success(cols) => Success(Creator(dbName + ".db", t, cols))
  }

  /** An invalid table name is reported even when no column is valid either. */
  lemma TableNameCheckedFirst(dbName: string)
    ensures NewCreator(dbName, "1bad", [Column("2bad", "BLOB")]) == Failure(InvalidTableName("1bad"))
  {
    LeadingDigitRejected();
  }

  // ---------------------------------------------------------------------------
  // The CREATE TABLE statement

  const CreatePrefix: string := "CREATE TABLE IF NOT EXISTS "

  function ColumnDef(c: Column): string
  {
    c.name + " " + c.colType
  }

  function ColumnDefs(cols: seq<Column>): (defs: seq<string>)
    ensures |defs| == |cols| && forall k :: 0 <= k < |cols| ==> defs[k] == ColumnDef(cols[k])
  {
    if |cols| == 0 then [] else [ColumnDef(cols[0])] + ColumnDefs(cols[1..])
  }

  /** The query text of `create_table`: the column definitions in insertion order, joined by `, `. */
  function CreateTableQuery(c: Creator): (q: string)
    ensures |q| > |CreatePrefix| && q[..|CreatePrefix|] == CreatePrefix && q[|q| - 1] == ')'
  {
    CreatePrefix + c.tableName + " (" + Join(", ", ColumnDefs(c.columns)) + ")"
  }

  /** Reads `<name> <type>, <name> <type>, ...` back into columns. */
  function ParseDefs(s: string): Option<seq<Column>>
    decreases |s|
  {
    if |s| == 0 then Some([])
    else
      var name := Before(s, ' ');
      var afterName := s[|name|..];
      if |afterName| == 0 then None
      else
        var typeAndRest := afterName[1..];
        var colType := Before(typeAndRest, ',');
        var rest := typeAndRest[|colType|..];
        if |rest| == 0 then Some([Column(name, colType)])
        else if |rest| >= 2 && rest[..2] == ", " then
          match ParseDefs(rest[2..])
          case Some(cols) => Some([Column(name, colType)] + cols)
          case None => None
        else None
  }

  /** Reads a `CREATE TABLE IF NOT EXISTS <table> (<defs>)` query back into its table name and columns. */
  function ParseQuery(q: string): Option<(string, seq<Column>)>
  {
    if |q| <= |CreatePrefix| || q[..|CreatePrefix|] != CreatePrefix || q[|q| - 1] != ')' then None
    else
      var body := q[|CreatePrefix|..|q| - 1];
      var table := Before(body, ' ');
      var rest := body[|table|..];
      if |rest| < 2 || rest[..2] != " (" then None
      else
        match ParseDefs(rest[2..])
        case Some(cols) => Some((table, cols))
        case None => None
  }

  lemma {:induction false} BeforeAbsent(s: string, c: char)
    requires c !in s
    ensures Before(s, c) == s
  {
    if |s| > 0 {
      BeforeAbsent(s[1..], c);
      assert [s[0]] + s[1..] == s;
    }
  }

  /** The characters that structure the query are absent from a valid column's name and type. */
  lemma ColumnHasNoSeparator(c: Column)
    requires ColumnOk(c)
    ensures ' ' !in c.name && ',' !in c.name && c.name != []
    ensures ' ' !in c.colType && ',' !in c.colType
  {
    ValidNameHasNoPunctuation(c.name);
    ValidTypeIsLetters(c.colType);
  }

  /** ParseDefs cuts `<name> <rest>` at the blank when the name has none. */
  lemma NameCut(name: string, rest: string)
    requires ' ' !in name
    ensures var s := name + " " + rest;
      Before(s, ' ') == name && |s| > |name| && s[|name|..][1..] == rest
  {
    var s := name + " " + rest;
    assert s == name + [' '] + rest;
    BeforeAt(name, ' ', rest);
    assert s[|name|..] == [' '] + rest;
  }

  /** ParseDefs cuts `<type><tail>` at the comma opening `tail` when the type has none. */
  lemma TypeCut(colType: string, tail: string)
    requires ',' !in colType
    requires tail == [] || tail[0] == ','
    ensures Before(colType + tail, ',') == colType && (colType + tail)[|colType|..] == tail
  {
    var s := colType + tail;
    assert s[|colType|..] == tail;
    if tail == [] {
      assert s == colType;
      BeforeAbsent(colType, ',');
    } else {
      CommaTailCut(colType, tail);
    }
  }

  /** TypeCut when a comma follows the type. */
  lemma CommaTailCut(colType: string, tail: string)
    requires ',' !in colType && |tail| > 0 && tail[0] == ','
    ensures Before(colType + tail, ',') == colType
  {
    assert tail == [','] + tail[1..];
    assert colType + tail == colType + [','] + tail[1..];
    BeforeAt(colType, ',', tail[1..]);
  }

  /** Where ParseDefs cuts `<name> <type><tail>`: the name at the blank, the type at the comma. */
  lemma ParseDefsCuts(c: Column, tail: string)
    requires ColumnOk(c)
    requires tail == [] || tail[0] == ','
    ensures var s := ColumnDef(c) + tail;
      Before(s, ' ') == c.name && |s| > |c.name| &&
      s[|c.name|..][1..] == c.colType + tail &&
      Before(c.colType + tail, ',') == c.colType &&
      (c.colType + tail)[|c.colType|..] == tail
  {
    ColumnHasNoSeparator(c);
    DefCuts(c.name, c.colType, tail);
  }

  /** ParseDefsCuts for a name without blanks and a type without commas. */
  lemma DefCuts(name: string, colType: string, tail: string)
    requires ' ' !in name && ',' !in colType
    requires tail == [] || tail[0] == ','
    ensures var s := name + " " + colType + tail;
      Before(s, ' ') == name && |s| > |name| &&
      s[|name|..][1..] == colType + tail &&
      Before(colType + tail, ',') == colType &&
      (colType + tail)[|colType|..] == tail
  {
    NameCut(name, colType + tail);
    assert name + " " + colType + tail == name + " " + (colType + tail);
    TypeCut(colType, tail);
  }

  /** A single column definition reads back as that column. */
  lemma ParseDefsLast(c: Column)
    requires ColumnOk(c)
    ensures ParseDefs(ColumnDef(c)) == Some([c])
  {
    ParseDefsCuts(c, []);
    assert ColumnDef(c) + [] == ColumnDef(c);
  }

  /** A column definition followed by `, ` and more reads back as the column, then the rest. */
  lemma ParseDefsNext(c: Column, j: string)
    requires ColumnOk(c)
    ensures ParseDefs(ColumnDef(c) + (", " + j)) ==
      match ParseDefs(j)
      case Some(cols) => Some([c] + cols)
      case None => None
  {
    ParseDefsCuts(c, ", " + j);
    assert (", " + j)[..2] == ", " && (", " + j)[2..] == j;
  }

  /** The joined definitions of two or more columns: the first one, `, `, then the others joined. */
  lemma JoinDefsCons(cols: seq<Column>)
    requires |cols| >= 2
    ensures Join(", ", ColumnDefs(cols)) == ColumnDef(cols[0]) + (", " + Join(", ", ColumnDefs(cols[1..])))
  {
    var defs := ColumnDefs(cols);
    assert ColumnDefs(cols[1..]) == defs[1..];
  }

  /** The joined definitions of one column: its definition. */
  lemma JoinDefsSingle(cols: seq<Column>)
    requires |cols| == 1
    ensures Join(", ", ColumnDefs(cols)) == ColumnDef(cols[0])
  {
  }

  lemma {:induction false} ParseDefsOfJoin(cols: seq<Column>)
    requires forall k :: 0 <= k < |cols| ==> ColumnOk(cols[k])
    ensures ParseDefs(Join(", ", ColumnDefs(cols))) == Some(cols)
  {
    if |cols| == 1 {
      JoinDefsSingle(cols);
      ParseDefsLast(cols[0]);
      assert cols == [cols[0]];
    } else if |cols| >= 2 {
      ParseDefsOfJoin(cols[1..]);
      JoinDefsCons(cols);
      ParseDefsNext(cols[0], Join(", ", ColumnDefs(cols[1..])));
      assert [cols[0]] + cols[1..] == cols;
    }
  }

  /** The body of a query, between the prefix and the final `)`, and where the table name ends. */
  lemma QueryBody(table: string, defs: string)
    requires ' ' !in table
    ensures var q := CreatePrefix + table + " (" + defs + ")";
      |q| > |CreatePrefix| && q[..|CreatePrefix|] == CreatePrefix && q[|q| - 1] == ')' &&
      q[|CreatePrefix|..|q| - 1] == table + [' '] + ("(" + defs)
  {
  }

  /** A query whose table name has no blank reads back as that name and the parsed definitions. */
  lemma ParseQueryOf(table: string, defs: string)
    requires ' ' !in table
    ensures ParseQuery(CreatePrefix + table + " (" + defs + ")") ==
      match ParseDefs(defs)
      case Some(cols) => Some((table, cols))
      case None => None
  {
    QueryBody(table, defs);
    var body := table + [' '] + ("(" + defs);
    BeforeAt(table, ' ', "(" + defs);
    assert body[|table|..] == " (" + defs;
    assert (" (" + defs)[..2] == " (" && (" (" + defs)[2..] == defs;
  }

  /**
   * The query of a validated creator reads back as its table name and its columns,
   * in insertion order: validation leaves no way for a name or a type to change the
   * shape of the statement.
   */
  lemma QueryRoundTrip(c: Creator)
    requires ValidCreator(c)
    ensures ParseQuery(CreateTableQuery(c)) == Some((c.tableName, c.columns))
  {
    ValidNameHasNoPunctuation(c.tableName);
    ParseDefsOfJoin(c.columns);
    ParseQueryOf(c.tableName, Join(", ", ColumnDefs(c.columns)));
  }
}
