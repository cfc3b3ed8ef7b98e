/**
 The dictionary that `suggest_words` searches: a map from word to record,
 built by `load_dictionary` from the dataset's rows in file order, where the
 first record carrying a word wins and later duplicates are skipped.

 Reading the CSV file and deserialising its rows are left to the caller: the
 input here is the sequence of rows the reader yields, each either a parsed
 record or a row that failed to deserialise.
 */
module Dictionary {
  import opened Words

  /** One dictionary entry. Only `word` is inspected; the other fields are
      carried along untouched. */
  datatype Record = Record(rank: nat, word: Word, pro: Word, pos: Word, tag: Word, definition: Word)

  /** What the reader yields for one row. */
  datatype Row = Parsed(record: Record) | Malformed

  datatype LoadResult =
    | Loaded(dict: map<Word, Record>)
    | Failed(row: nat)  // index of the row that did not deserialise

  /** The words that occur in `rs`. */
  function WordsOf(rs: seq<Record>): (ws: set<Word>) {
    set r | r in rs :: r.word
  }

  /** `rs[i]` is the first record carrying its word. */
  predicate FirstOfItsWord(rs: seq<Record>, i: nat)
    requires i < |rs|
  {
    forall k :: 0 <= k < i ==> rs[k].word != rs[i].word
  }

  /** The insertion loop of `load_dictionary` as a left fold: a record is
      added only when its word is not yet a key. */
  function Load(rs: seq<Record>): (m: map<Word, Record>)
    decreases |rs|
  {
    if |rs| == 0 then map[]
    else
      var m := Load(rs[..|rs| - 1]);
      var r := rs[|rs| - 1];
      if r.word in m then m else m[r.word := r]
  }

  /** The fold's keys are exactly the words of `rs`. */
  lemma {:induction false} LoadKeys(rs: seq<Record>)
    ensures Load(rs).Keys == WordsOf(rs)
    decreases |rs|
  {
    if |rs| > 0 {
      var init := rs[..|rs| - 1];
      var r := rs[|rs| - 1];
      LoadKeys(init);
      assert rs == init + [r];
      LoadSnoc(init, r);
      assert WordsOf(rs) == WordsOf(init) + {r.word};
    }
  }

  /** Each word maps to the first record carrying it: later records with the
      same word never overwrite it. */
  lemma {:induction false} LoadFirstWins(rs: seq<Record>, i: nat)
    requires i < |rs| && FirstOfItsWord(rs, i)
    ensures rs[i].word in Load(rs) && Load(rs)[rs[i].word] == rs[i]
    decreases |rs|
  {
    var init := rs[..|rs| - 1];
    if i < |init| {
      assert FirstOfItsWord(init, i);
      LoadFirstWins(init, i);
    } else {
      LoadAbsent(init, rs[i].word);
    }
  }

  /** A word no record carries is not a key. */
  lemma {:induction false} LoadAbsent(rs: seq<Record>, w: Word)
    requires forall k :: 0 <= k < |rs| ==> rs[k].word != w
    ensures w !in Load(rs)
    decreases |rs|
  {
    if |rs| > 0 {
      LoadAbsent(rs[..|rs| - 1], w);
    }
  }

  /** One step of the fold: a record is stored only under a new word. */
  lemma LoadSnoc(rs: seq<Record>, r: Record)
    ensures Load(rs + [r]) == if r.word in Load(rs) then Load(rs) else Load(rs)[r.word := r]
  {
    assert (rs + [r])[..|rs|] == rs;
  }

  /** Records that come later never change what earlier records put in the
      map: the map built from a prefix is a sub-map of the map built from
      the whole sequence. */
  lemma {:induction false} LoadKeepsFirst(rs: seq<Record>, later: seq<Record>)
    ensures forall w :: w in Load(rs) ==> w in Load(rs + later) && Load(rs + later)[w] == Load(rs)[w]
    decreases |later|
  {
    if |later| == 0 {
      assert rs + later == rs;
    } else {
      var init := later[..|later| - 1];
      var r := later[|later| - 1];
      LoadKeepsFirst(rs, init);
      assert rs + later == (rs + init) + [r];
      LoadSnoc(rs + init, r);
    }
  }

  /** Once a word is a key, a further record with that word leaves the map
      exactly as it was. */
  lemma LoadIgnoresDuplicate(rs: seq<Record>, r: Record)
    requires r.word in WordsOf(rs)
    ensures Load(rs + [r]) == Load(rs)
  {
    LoadKeys(rs);
    LoadSnoc(rs, r);
  }

  /** The records among the rows, in row order. */
  function Records(rows: seq<Row>): (rs: seq<Record>)
    decreases |rows|
  {
    if |rows| == 0 then []
    else
      var last := rows[|rows| - 1];
      Records(rows[..|rows| - 1]) + (if last.Parsed? then [last.record] else [])
  }

  lemma RecordsStep(rows: seq<Row>, i: nat)
    requires i < |rows| && rows[i].Parsed?
    ensures Records(rows[..i + 1]) == Records(rows[..i]) + [rows[i].record]
  {
    assert rows[..i + 1][..i] == rows[..i];
  }

  /** `load_dictionary` after the file is open: stops at the first row that
      does not deserialise and reports it; otherwise returns the map the
      insertion loop builds. */
  method LoadDictionary(rows: seq<Row>) returns (result: LoadResult)
    ensures result.Failed? <==> exists k :: 0 <= k < |rows| && rows[k].Malformed?
    ensures result.Failed? ==>
              result.row < |rows| && rows[result.row].Malformed? &&
              forall k :: 0 <= k < result.row ==> rows[k].Parsed?
    ensures result.Loaded? ==> result.dict == Load(Records(rows))
    ensures result.Loaded? ==>
              |Records(rows)| == |rows| && forall k :: 0 <= k < |rows| ==> rows[k] == Parsed(Records(rows)[k])
  {
    var m: map<Word, Record> := map[];
    var i := 0;
    ghost var recs: seq<Record> := [];
    while i < |rows|
      invariant i <= |rows|
      invariant forall k :: 0 <= k < i ==> rows[k].Parsed?
      invariant recs == Records(rows[..i])
      invariant |recs| == i && forall k :: 0 <= k < i ==> rows[k] == Parsed(recs[k])
      invariant m == Load(recs)
    {
      if rows[i].Malformed? {
        return Failed(i);
      }
      assert rows[i].Parsed?;
      var r := rows[i].record;
      RecordsStep(rows, i);
      LoadSnoc(recs, r);
      if r.word !in m {
        m := m[r.word := r];
      }
      recs := recs + [r];
      i := i + 1;
    }
    assert rows[..i] == rows;
    return Loaded(m);
  }
}
