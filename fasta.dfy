/** The FASTA reader of src/io/loader/parser/fasta.cpp, over a file seen as
    its list of lines and a read cursor. A record is a header line starting
    with '>' (the description follows it) and the lines after it up to the
    next header, an empty line or the end of the file. */
module Fasta {
  import opened Encoder
  import opened Database

  /** A header line: it starts with '>'. */
  predicate IsHeader(line: string)
  {
    |line| >= 1 && line[0] == '>'
  }

  /** The input file: its lines and the position of the next line to read.
      The end of the file is reached when every line has been read. */
  class LineReader {
    const lines: seq<string>
    var cursor: nat

    ghost predicate Valid()
      reads this
    {
      cursor <= |lines|
    }

    constructor (lines: seq<string>)
      ensures this.lines == lines && cursor == 0 && Valid()
    {
      this.lines := lines;
      cursor := 0;
    }

    /** `file.eof()` */
    function Eof(): (r: bool)
      reads this
      requires Valid()
      ensures r <==> cursor == |lines|
    {
      cursor == |lines|
    }

    /** `file.peek() != '>'`: the next line does not start a record; true at the end. */
    function NextIsNotHeader(): (r: bool)
      reads this
      requires Valid()
      ensures r <==> cursor == |lines| || !IsHeader(lines[cursor])
    {
      cursor == |lines| || |lines[cursor]| < 1 || lines[cursor][0] != '>'
    }

    /** `std::getline(file, line)`: the next line, or nothing at the end. */
    method GetLine() returns (ok: bool, line: string)
      requires Valid()
      modifies this
      ensures Valid()
      ensures ok <==> old(cursor) < |lines|
      ensures ok ==> line == lines[old(cursor)] && cursor == old(cursor) + 1
      ensures !ok ==> cursor == old(cursor)
    {
      if cursor == |lines| {
        return false, "";
      }
      line := lines[cursor];
      cursor := cursor + 1;
      ok := true;
    }
  }

  /** The first header at or after position `k`; the number of lines when
      there is none. */
  function FirstHeader(lines: seq<string>, k: nat): (h: nat)
    requires k <= |lines|
    ensures k <= h <= |lines|
    ensures h < |lines| ==> IsHeader(lines[h])
    ensures forall j :: k <= j < h ==> !IsHeader(lines[j])
    decreases |lines| - k
  {
    if k == |lines| || IsHeader(lines[k]) then k else FirstHeader(lines, k + 1)
  }

  /** Where the lines of a record that start at `k` end: at the next header,
      empty line or the end of the file. */
  function BodyEnd(lines: seq<string>, k: nat): (e: nat)
    requires k <= |lines|
    ensures k <= e <= |lines|
    ensures e < |lines| ==> IsHeader(lines[e]) || lines[e] == ""
    ensures forall j :: k <= j < e ==> !IsHeader(lines[j]) && lines[j] != ""
    decreases |lines| - k
  {
    if k == |lines| || IsHeader(lines[k]) || lines[k] == "" then k else BodyEnd(lines, k + 1)
  }

  /** Where reading resumes after a record's lines: an empty line that ends
      them is read too, a header is not. */
  function Resume(lines: seq<string>, e: nat): nat
    requires e <= |lines|
  {
    if e < |lines| && lines[e] == "" then e + 1 else e
  }

  /** The lines joined together. */
  function Concat(ls: seq<string>): string
  {
    if ls == [] then [] else Concat(ls[..|ls| - 1]) + ls[|ls| - 1]
  }

  /** What `extract_to_db` finds from position `k`: the description and the
      text of the next record and where reading resumes, or nothing when no
      header is left. */
  datatype Record = Record(description: string, text: string, next: nat)

  function NextRecord(lines: seq<string>, k: nat): (r: Wrappers.Option<Record>)
    requires k <= |lines|
    ensures r.Some? ==> k < r.value.next <= |lines|
  {
    var h := FirstHeader(lines, k);
    if h == |lines| then Wrappers.None
    else
      var e := BodyEnd(lines, h + 1);
      Wrappers.Some(Record(lines[h][1..], Concat(lines[h + 1..e]), Resume(lines, e)))
  }

  /** The first loop of `extract_to_db`: reads lines until one is a header,
      and gives its description. Finds nothing when the file ends first. */
  method SkipToHeader(file: LineReader) returns (found: bool, description: string)
    requires file.Valid()
    modifies file
    ensures file.Valid()
    ensures found <==> FirstHeader(file.lines, old(file.cursor)) < |file.lines|
    ensures found ==> file.cursor == FirstHeader(file.lines, old(file.cursor)) + 1 &&
                      description == file.lines[file.cursor - 1][1..]
    ensures !found ==> file.cursor == |file.lines|
  {
    ghost var k := file.cursor;
    var line: string := "";
    while !IsHeader(line)
      invariant file.Valid() && k <= file.cursor
      invariant IsHeader(line) ==> file.cursor >= 1 && line == file.lines[file.cursor - 1] &&
                                   FirstHeader(file.lines, k) == file.cursor - 1
      invariant !IsHeader(line) ==> FirstHeader(file.lines, k) == FirstHeader(file.lines, file.cursor)
      decreases |file.lines| - file.cursor, if IsHeader(line) then 0 else 1
    {
      if file.Eof() {
        return false, "";
      }
      var got;
      got, line := file.GetLine();
    }
    found, description := true, line[1..];
  }

  /** The second loop of `extract_to_db`: reads and joins lines while the
      next one is not a header, stopping after an empty line. */
  method ReadBody(file: LineReader) returns (text: string)
    requires file.Valid()
    modifies file
    ensures file.Valid()
    ensures old(file.cursor) <= BodyEnd(file.lines, old(file.cursor))
    ensures file.cursor == Resume(file.lines, BodyEnd(file.lines, old(file.cursor)))
    ensures text == Concat(file.lines[old(file.cursor)..BodyEnd(file.lines, old(file.cursor))])
  {
    ghost var k := file.cursor;
    ghost var e := BodyEnd(file.lines, k);
    text := "";
    var more := true;
    while more
      invariant file.Valid() && k <= file.cursor
      invariant more ==> file.cursor <= e && text == Concat(file.lines[k..file.cursor])
      invariant !more ==> file.cursor == Resume(file.lines, e) && text == Concat(file.lines[k..e])
      decreases |file.lines| - file.cursor, if more then 1 else 0
    {
      if !file.NextIsNotHeader() {
        more := false;
      } else {
        var got, line := file.GetLine();
        if !got || |line| == 0 {
          more := false;
        } else {
          ConcatStep(file.lines, k, file.cursor - 1);
          text := text + line;
        }
      }
    }
  }

  /** `extract_to_db(file, db)`: skips to the next header, reads the record's
      lines, and adds one entry with the header's description and the
      encoded text. Returns false, adding nothing, when the file ends first. */
  method ExtractToDb(file: LineReader, db: Database) returns (ok: bool)
    requires file.Valid()
    modifies file, db
    ensures file.Valid()
    ensures ok <==> NextRecord(file.lines, old(file.cursor)).Some?
    ensures !ok ==> file.cursor == |file.lines| && db.entries == old(db.entries) && db.indices == old(db.indices)
    ensures ok ==> var r := NextRecord(file.lines, old(file.cursor)).value;
                   file.cursor == r.next &&
                   db.entries == old(db.entries) + [Entry(r.description, Encoded(r.text))] &&
                   db.indices == old(db.indices)[r.description := |old(db.entries)|]
    ensures old(db.Valid()) ==> db.Valid()
  {
    var description;
    ok, description := SkipToHeader(file);
    if !ok {
      return;
    }
    var text := ReadBody(file);
    var contents := Encode(text);
    db.Add(description, contents);
  }

  /** Joining one more line extends the text. */
  lemma ConcatStep(lines: seq<string>, lo: nat, hi: nat)
    requires lo <= hi < |lines|
    ensures Concat(lines[lo..hi + 1]) == Concat(lines[lo..hi]) + lines[hi]
  {
    assert lines[lo..hi + 1][..hi - lo] == lines[lo..hi];
  }

  /** The records of the file from position `k`, in order. */
  function Records(lines: seq<string>, k: nat): seq<Record>
    requires k <= |lines|
    decreases |lines| - k
  {
    match NextRecord(lines, k)
    case None => []
    case Some(r) => [r] + Records(lines, r.next)
  }

  /** A file with a record left: its records are that one, then the rest. */
  lemma RecordsStep(lines: seq<string>, k: nat)
    requires k <= |lines| && NextRecord(lines, k).Some?
    ensures var r := NextRecord(lines, k).value;
            EntriesOf(Records(lines, k)) == [Entry(r.description, Encoded(r.text))] + EntriesOf(Records(lines, r.next))
  {
    var r := NextRecord(lines, k).value;
    assert Records(lines, k) == [r] + Records(lines, r.next);
    assert ([r] + Records(lines, r.next))[1..] == Records(lines, r.next);
  }

  /** The entries a sequence of records adds. */
  function EntriesOf(rs: seq<Record>): (es: seq<Entry>)
    ensures |es| == |rs|
  {
    if rs == [] then [] else [Entry(rs[0].description, Encoded(rs[0].text))] + EntriesOf(rs[1..])
  }

  /** Entry `i` holds record `i`'s description and its encoded text. */
  lemma {:induction false} EntriesOfAt(rs: seq<Record>, i: nat)
    requires i < |rs|
    ensures EntriesOf(rs)[i] == Entry(rs[i].description, Encoded(rs[i].text))
  {
    if i > 0 {
      EntriesOfAt(rs[1..], i - 1);
    }
  }

  /** `parser::fasta(filename)`: extracts records until the end of the file,
      into a new database. Opening the file is left out; the lines are given. */
  method ReadFasta(lines: seq<string>) returns (db: Database)
    ensures fresh(db) && db.Valid()
    ensures db.entries == EntriesOf(Records(lines, 0))
  {
    db := new Database();
    var file := new LineReader(lines);
    ghost var all := EntriesOf(Records(lines, 0));
    while !file.Eof()
      invariant file.lines == lines && file.Valid() && fresh(db) && db.Valid()
      invariant db.entries + EntriesOf(Records(lines, file.cursor)) == all
      decreases |lines| - file.cursor
    {
      ghost var before := db.entries;
      ghost var k := file.cursor;
      var found := ExtractToDb(file, db);
      ExtractStep(lines, k, before, db.entries, found, file.cursor);
    }
    assert Records(lines, file.cursor) == [];
    assert db.entries + [] == db.entries;
  }

  /** One call of `extract_to_db` moves one record from the rest of the file
      to the database. */
  lemma ExtractStep(lines: seq<string>, k: nat, before: seq<Entry>, after: seq<Entry>, found: bool, next: nat)
    requires k <= |lines| && next <= |lines|
    requires found <==> NextRecord(lines, k).Some?
    requires !found ==> next == |lines| && after == before
    requires found ==> var r := NextRecord(lines, k).value;
                       next == r.next && after == before + [Entry(r.description, Encoded(r.text))]
    ensures after + EntriesOf(Records(lines, next)) == before + EntriesOf(Records(lines, k))
  {
    if found {
      var r := NextRecord(lines, k).value;
      RecordsStep(lines, k);
      var e, rest := Entry(r.description, Encoded(r.text)), EntriesOf(Records(lines, next));
      assert before + ([e] + rest) == before + [e] + rest;
    } else {
      assert NextRecord(lines, |lines|).None?;
    }
  }

  /** Each record's description is its header minus the '>', and its text is
      the lines after the header joined together, up to the next header, an
      empty line or the end of the file. */
  lemma RecordShape(lines: seq<string>, k: nat)
    requires k <= |lines| && NextRecord(lines, k).Some?
    ensures var r := NextRecord(lines, k).value;
            var h := FirstHeader(lines, k);
            h < |lines| && lines[h] == ['>'] + r.description &&
            (forall j :: k <= j < h ==> !IsHeader(lines[j])) &&
            r.text == Concat(lines[h + 1..BodyEnd(lines, h + 1)])
  {
    var h := FirstHeader(lines, k);
    assert lines[h] == [lines[h][0]] + lines[h][1..];
  }
}
