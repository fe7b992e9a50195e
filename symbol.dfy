/**
 * The parts of main.py that are string logic: selecting the `.csv` files of the
 * price directory, deriving the symbol from the first of them, and naming the
 * symbol's database after it.
 */
module SymbolNaming {
  import opened Wrappers
  import opened Strings

  /** `files[0]` on an empty list raises `IndexError`. */
  datatype SelectionError = IndexError

  /** `str(file).split("/")[-1].split("\\")[-1]`. */
  function BaseName(file: string): (r: string)
    ensures '/' !in r && '\\' !in r
    ensures |r| <= |file| && r == file[|file| - |r|..]
  {
    BaseNameIsSuffix(file);
    Last(Split(Last(Split(file, '/')), '\\'))
  }

  /** The base name is the text after the last `/`, then after the last `\\`: a suffix of the path with neither separator. */
  lemma BaseNameIsSuffix(file: string)
    ensures var b := Last(Split(Last(Split(file, '/')), '\\'));
      '/' !in b && '\\' !in b && |b| <= |file| && b == file[|file| - |b|..]
  {
    var a := Last(Split(file, '/'));
    SplitLastIsAfterLast(file, '/');
    assert a == AfterLast(file, '/');
    var b := Last(Split(a, '\\'));
    SplitLastIsAfterLast(a, '\\');
    assert b == AfterLast(a, '\\');
    AbsentFromSuffix(b, a, '/');
    SuffixOfSuffix(b, a, file);
  }

  /** A suffix of a suffix of `s` is a suffix of `s`. */
  lemma SuffixOfSuffix(r: string, a: string, s: string)
    requires |r| <= |a| && r == a[|a| - |r|..]
    requires |a| <= |s| && a == s[|s| - |a|..]
    ensures |r| <= |s| && r == s[|s| - |r|..]
  {
    assert forall k :: 0 <= k < |r| ==> r[k] == a[|a| - |r| + k] == s[|s| - |r| + k];
  }

  /**
   * `".".join(<base name>.split(".")[:-1]).split("-")[0]`: drop the extension of the
   * base name, then keep the text before the first `-`.
   */
  function Symbol(file: string): (r: string)
    ensures r <= BaseName(file)
    ensures '-' !in r
  {
    JoinDropLastIsBeforeLast(BaseName(file), '.');
    SplitFirstIsBefore(BeforeLast(BaseName(file), '.'), '-');
    Split(Join(".", DropLast(Split(BaseName(file), '.'))), '-')[0]
  }

  /** A regular file whose name ends in `.csv` (case-sensitive). */
  predicate IsCsvFile(f: string, isFile: string -> bool)
  {
    isFile(f) && EndsWith(f, ".csv")
  }

  /** Entry `j` of the listing is its first `.csv` file. */
  predicate FirstCsvAt(listing: seq<string>, isFile: string -> bool, j: int)
  {
    0 <= j < |listing| && IsCsvFile(listing[j], isFile) && forall i :: 0 <= i < j ==> !IsCsvFile(listing[i], isFile)
  }

  /** The list comprehension of main.py: the `.csv` files of the listing, in listing order (see `CsvFilesFirst`). */
  function CsvFiles(listing: seq<string>, isFile: string -> bool): (files: seq<string>)
    ensures |files| <= |listing|
    ensures forall f :: f in files <==> f in listing && isFile(f) && EndsWith(f, ".csv")
  {
    if |listing| == 0 then []
    else
      var rest := CsvFiles(listing[1..], isFile);
      assert listing == [listing[0]] + listing[1..];
      if isFile(listing[0]) && EndsWith(listing[0], ".csv") then [listing[0]] + rest else rest
  }

  /** The first file selected is the first `.csv` file of the listing. */
  lemma {:induction false} CsvFilesFirst(listing: seq<string>, isFile: string -> bool)
    requires |CsvFiles(listing, isFile)| > 0
    ensures exists j :: FirstCsvAt(listing, isFile, j) && CsvFiles(listing, isFile)[0] == listing[j]
  {
    if IsCsvFile(listing[0], isFile) {
      assert FirstCsvAt(listing, isFile, 0);
    } else {
      CsvFilesFirst(listing[1..], isFile);
      var j :| FirstCsvAt(listing[1..], isFile, j) && CsvFiles(listing[1..], isFile)[0] == listing[1..][j];
      assert FirstCsvAt(listing, isFile, j + 1);
    }
  }

  /** `f'./{symbol}.db'`. */
  function DatabasePath(symbol: string): (p: string)
    ensures |p| == |symbol| + 5 && p[..2] == "./" && p[2..|p| - 3] == symbol && EndsWith(p, ".db")
  {
    "./" + symbol + ".db"
  }

  /**
   * From a directory listing to the database path: the first `.csv` file of the
   * listing names the symbol; an empty selection raises `IndexError`. The order of
   * the listing (`os.listdir`) is an input, so which file comes first is not fixed here.
   */
  function SymbolDatabase(listing: seq<string>, isFile: string -> bool): (r: Result<string, SelectionError>)
    ensures r.Failure? <==> forall f :: f in listing ==> !(isFile(f) && EndsWith(f, ".csv"))
    ensures r.Success? ==>
      exists f :: f in listing && isFile(f) && EndsWith(f, ".csv") && r.value == DatabasePath(Symbol(f))
    ensures r.Success? ==> exists j :: FirstCsvAt(listing, isFile, j) && r.value == DatabasePath(Symbol(listing[j]))
  {
    var files := CsvFiles(listing, isFile);
    if |files| == 0 then Failure(IndexError)
    else
      assert files[0] in files;
      CsvFilesFirst(listing, isFile);
      Success(DatabasePath(Symbol(files[0])))
  }

  /**
   * The symbol by an independent, character-level definition: the text after the last
   * `/`, then after the last `\`, then before the last `.`, then before the first `-`.
   */
  lemma SymbolByScanning(file: string)
    ensures BaseName(file) == AfterLast(AfterLast(file, '/'), '\\')
    ensures Symbol(file) == ScannedSymbol(file)
  {
    SplitLastIsAfterLast(file, '/');
    SplitLastIsAfterLast(AfterLast(file, '/'), '\\');
    JoinDropLastIsBeforeLast(BaseName(file), '.');
    SplitFirstIsBefore(BeforeLast(BaseName(file), '.'), '-');
  }

  /** The character-level symbol of `file`. */
  function ScannedSymbol(file: string): string
  {
    Before(BeforeLast(AfterLast(AfterLast(file, '/'), '\\'), '.'), '-')
  }

  /** The symbol never contains `/`, `\` or `-`. */
  lemma SymbolHasNoSeparator(file: string)
    ensures '/' !in Symbol(file) && '\\' !in Symbol(file) && '-' !in Symbol(file)
  {
    SymbolByScanning(file);
    ScannedSymbolHasNoSeparator(file);
  }

  lemma ScannedSymbolHasNoSeparator(file: string)
    ensures '/' !in ScannedSymbol(file) && '\\' !in ScannedSymbol(file)
  {
    var a := AfterLast(file, '/');
    var b := AfterLast(a, '\\');
    var stem := BeforeLast(b, '.');
    var sym := Before(stem, '-');
    AbsentFromSuffix(b, a, '/');
    AbsentFromPrefix(stem, b, '/');
    AbsentFromPrefix(sym, stem, '/');
    AbsentFromPrefix(stem, b, '\\');
    AbsentFromPrefix(sym, stem, '\\');
  }

  /** A base name without `.` gives the empty symbol. */
  lemma NoExtensionEmptySymbol(file: string)
    requires '.' !in BaseName(file)
    ensures Symbol(file) == ""
  {
    SymbolByScanning(file);
  }

  /**
   * A plain file name `p-q.ext` (no directory part, no `.` in the extension, no `-`
   * in `p`) gives the symbol `p`: only the last `.` segment is dropped, and the text
   * from the first `-` on.
   */
  lemma SymbolOfPlainName(p: string, q: string, ext: string)
    requires forall ch :: ch in p + q + ext ==> ch != '/' && ch != '\\'
    requires '-' !in p && '.' !in ext
    ensures Symbol(p + "-" + q + "." + ext) == p
  {
    SymbolByScanning(p + "-" + q + "." + ext);
    ScannedSymbolOfPlainName(p, q, ext);
  }

  lemma ScannedSymbolOfPlainName(p: string, q: string, ext: string)
    requires forall ch :: ch in p + q + ext ==> ch != '/' && ch != '\\'
    requires '-' !in p && '.' !in ext
    ensures ScannedSymbol(p + "-" + q + "." + ext) == p
  {
    var stem := p + "-" + q;
    var file := stem + "." + ext;
    assert forall ch :: ch in file ==> ch in p + q + ext || ch == '-' || ch == '.';
    AfterLastAbsent(file, '/');
    AfterLastAbsent(file, '\\');
    BeforeLastAt(stem, '.', ext);
    BeforeAt(p, '-', q);
  }

  /** `a.b-c.csv` gives the symbol `a.b`. */
  lemma ExampleSymbol()
    ensures Symbol("a.b-c.csv") == "a.b"
  {
    var file := "a.b" + "-" + "c" + "." + "csv";
    assert file == "a.b-c.csv";
    SymbolOfPlainName("a.b", "c", "csv");
  }

  /** The database file sits in the working directory: `./`, a name without `/`, then `.db`. */
  lemma DatabaseInWorkingDirectory(file: string)
    ensures var p := DatabasePath(Symbol(file));
      |p| >= 5 && p[..2] == "./" && EndsWith(p, ".db") && '/' !in p[2..]
  {
    SymbolHasNoSeparator(file);
    var sym := Symbol(file);
    var p := DatabasePath(sym);
    assert p[2..] == sym + ".db";
  }
}
