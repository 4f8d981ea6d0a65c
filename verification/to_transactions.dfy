/** The bag-of-words converter of homework/homework-07/to_transactions.py: data lines
    `doc_id word_id count` (after a three-line header) are grouped into the set of
    word ids of each document, the word ids are translated through the 1-indexed
    vocabulary, and each document becomes one comma-joined line.

    Both files are taken as the lists of lines `readlines()` returns. A Python set
    has no order the model can reproduce; the model keeps a document's word ids in
    order of first appearance. */
module DocwordTransactions {
  import opened Wrappers
  import opened Collections
  import opened Text

  /** Why a conversion fails: a data line with fewer than three fields raises
      `IndexError` (the line is numbered from 0 over the whole file), and a word id
      that is not in the vocabulary raises `KeyError`. */
  datatype Error = MissingField(line: nat) | UnknownWordId(id: string)

  /** What the script keeps of a data line: its `doc_id` and `word_id`. */
  datatype Entry = Entry(doc: string, word: string)

  /** The text a data line for `e` starts with: both ids, each followed by a space. */
  function Lead(e: Entry): string {
    e.doc + " " + e.word + " "
  }

  // ---------------------------------------------------------------------------
  // read_docword

  /** `word.split(" ")` followed by reading fields 0, 1 and 2: the line parses
      exactly when it has at least two spaces, and then it starts with the two ids
      it yields, which hold no space. */
  function ParseLine(line: string, index: nat): (r: Result<Entry, Error>)
    ensures r.Ok? <==> Count(line, ' ') >= 2
    ensures r.Err? ==> r.error == MissingField(index)
    ensures r.Ok? ==> ' ' !in r.value.doc && ' ' !in r.value.word && Lead(r.value) <= line
  {
    var fields := Split(line, ' ');
    SplitCount(line, ' ');
    if |fields| < 3 then Err(MissingField(index))
    else
      FieldsLead(line);
      Ok(Entry(fields[0], fields[1]))
  }

  /** A line with three fields starts with the first two, each followed by a space. */
  lemma FieldsLead(line: string)
    requires |Split(line, ' ')| >= 3
    ensures Lead(Entry(Split(line, ' ')[0], Split(line, ' ')[1])) <= line
  {
    var fields := Split(line, ' ');
    var tail := fields[1..];
    assert fields == [fields[0]] + tail;
    JoinCons(fields[0], tail, ' ');
    assert tail == [tail[0]] + tail[1..];
    JoinCons(tail[0], tail[1..], ' ');
    var lead := Lead(Entry(fields[0], fields[1]));
    var rest := Join(tail[1..], ' ');
    assert line == fields[0] + [' '] + (tail[0] + [' '] + rest);
    RegroupLead(fields[0], tail[0], rest);
    assert line == lead + rest;
    assert line[..|lead|] == lead;
  }

  lemma RegroupLead(doc: string, word: string, rest: string)
    ensures doc + [' '] + (word + [' '] + rest) == Lead(Entry(doc, word)) + rest
  {
  }

  /** A line made of two space-free ids and anything after them parses to those ids. */
  lemma ParseLineFormat(doc: string, word: string, rest: string, index: nat)
    requires ' ' !in doc && ' ' !in word
    ensures ParseLine(Lead(Entry(doc, word)) + rest, index) == Ok(Entry(doc, word))
  {
    var tail := word + " " + rest;
    assert Lead(Entry(doc, word)) + rest == doc + [' '] + tail;
    SplitCons(doc, ' ', tail);
    assert tail == word + [' '] + rest;
    SplitCons(word, ' ', rest);
  }

  /** The occurrence count is never looked at. */
  lemma ParseLineIgnoresCount(doc: string, word: string, count1: string, count2: string, index: nat)
    requires ' ' !in doc && ' ' !in word
    ensures ParseLine(Lead(Entry(doc, word)) + count1, index) == ParseLine(Lead(Entry(doc, word)) + count2, index)
  {
    ParseLineFormat(doc, word, count1, index);
    ParseLineFormat(doc, word, count2, index);
  }

  /** The data lines in order, the line at `k` numbered `first + k`; the first
      line that fails to parse stops the reading. */
  function ParseEntries(lines: seq<string>, first: nat): (r: Result<seq<Entry>, Error>)
    ensures r.Ok? <==> forall k :: 0 <= k < |lines| ==> Count(lines[k], ' ') >= 2
    ensures r.Ok? ==> (
      && |r.value| == |lines|
      && forall k :: 0 <= k < |lines| ==> ParseLine(lines[k], first + k) == Ok(r.value[k]))
    decreases |lines|
  {
    if |lines| == 0 then Ok([])
    else
      var e :- ParseLine(lines[0], first);
      var rest :- ParseEntries(lines[1..], first + 1);
      assert forall k :: 1 <= k < |lines| ==> lines[k] == lines[1..][k - 1];
      Ok([e] + rest)
  }

  /** The error names the first line that fails to parse. */
  lemma {:induction false} FirstBadLine(lines: seq<string>, first: nat)
    requires ParseEntries(lines, first).Err?
    ensures var err := ParseEntries(lines, first).error;
      && err.MissingField?
      && first <= err.line < first + |lines|
      && Count(lines[err.line - first], ' ') < 2
      && forall k :: 0 <= k < err.line - first ==> Count(lines[k], ' ') >= 2
    decreases |lines|
  {
    var err := ParseEntries(lines, first).error;
    if ParseLine(lines[0], first).Ok? {
      FirstBadLine(lines[1..], first + 1);
      assert err == ParseEntries(lines[1..], first + 1).error;
      var i := err.line - first;
      assert lines[i] == lines[1..][i - 1];
      forall k | 0 <= k < i ensures Count(lines[k], ' ') >= 2 {
        if k > 0 {
          assert lines[k] == lines[1..][k - 1];
        }
      }
    }
  }

  /** `lines[3:]`: everything after the three header lines, nothing when there are fewer. */
  function DataLines(lines: seq<string>): (data: seq<string>)
    ensures |lines| <= 3 ==> data == []
    ensures |lines| > 3 ==> |data| == |lines| - 3 && forall k :: 0 <= k < |data| ==> data[k] == lines[k + 3]
  {
    if |lines| <= 3 then [] else lines[3..]
  }

  /** `document_words`: the doc ids in order of first appearance, and for each the
      word ids seen with it, without repeats, in order of first appearance. */
  datatype Docs = Docs(order: seq<string>, words: map<string, seq<string>>)

  /** What every `document_words` satisfies: each doc id once, a word list for
      exactly those, and each word list non-empty and without repeats. */
  predicate WellFormed(g: Docs) {
    && Distinct(g.order)
    && g.words.Keys == Elems(g.order)
    && forall d :: d in g.words ==> |g.words[d]| >= 1 && Distinct(g.words[d])
  }

  /** One iteration of the loop: create the doc's set when the doc is new, then add
      the word id to it. */
  function Add(g: Docs, e: Entry): (g': Docs)
    requires WellFormed(g)
    ensures WellFormed(g')
    ensures Elems(g'.order) == Elems(g.order) + {e.doc}
    ensures Elems(g'.words[e.doc]) == (if e.doc in g.words then Elems(g.words[e.doc]) else {}) + {e.word}
    ensures forall d :: d in g.words && d != e.doc ==> g'.words[d] == g.words[d]
  {
    if e.doc !in g.words then
      assert Elems(g.order + [e.doc]) == Elems(g.order) + {e.doc};
      assert Elems([e.word]) == {e.word};
      Docs(g.order + [e.doc], g.words[e.doc := [e.word]])
    else if e.word in g.words[e.doc] then
      assert e.word in Elems(g.words[e.doc]);
      g
    else
      var ws := g.words[e.doc];
      assert Elems(ws + [e.word]) == Elems(ws) + {e.word};
      Docs(g.order, g.words[e.doc := ws + [e.word]])
  }

  /** The doc ids of some entries. */
  function DocIds(entries: seq<Entry>): set<string> {
    set k | 0 <= k < |entries| :: entries[k].doc
  }

  /** The word ids paired with `doc` in some entries. */
  function WordIds(entries: seq<Entry>, doc: string): set<string> {
    set k | 0 <= k < |entries| && entries[k].doc == doc :: entries[k].word
  }

  /** The loop of `read_docword` over the entries. The map has a key for exactly the
      doc ids of the entries, and each doc's list holds exactly the word ids paired
      with it. */
  function Group(entries: seq<Entry>): (g: Docs)
    ensures WellFormed(g)
    ensures Elems(g.order) == DocIds(entries)
    ensures forall d :: d in g.words ==> Elems(g.words[d]) == WordIds(entries, d)
  {
    if |entries| == 0 then Docs([], map[])
    else
      var init := entries[..|entries| - 1];
      var e := entries[|entries| - 1];
      assert entries == init + [e];
      var prev := Group(init);
      AddExtendsGroup(init, e, prev);
      Add(prev, e)
  }

  /** Adding one more entry to a grouping of the entries before it groups them all. */
  lemma AddExtendsGroup(init: seq<Entry>, e: Entry, prev: Docs)
    requires WellFormed(prev) && Elems(prev.order) == DocIds(init)
    requires forall d :: d in prev.words ==> Elems(prev.words[d]) == WordIds(init, d)
    ensures var g := Add(prev, e);
      && Elems(g.order) == DocIds(init + [e])
      && forall d :: d in g.words ==> Elems(g.words[d]) == WordIds(init + [e], d)
  {
    var g := Add(prev, e);
    GroupStep(init, e);
    forall d | d in g.words ensures Elems(g.words[d]) == WordIds(init + [e], d) {
      if d != e.doc {
        assert d in prev.words;
      }
    }
  }

  /** How the doc ids and the word ids of each doc grow with one more entry. */
  lemma GroupStep(init: seq<Entry>, e: Entry)
    ensures DocIds(init + [e]) == DocIds(init) + {e.doc}
    ensures WordIds(init + [e], e.doc) == WordIds(init, e.doc) + {e.word}
    ensures forall d :: d != e.doc ==> WordIds(init + [e], d) == WordIds(init, d)
  {
    var all := init + [e];
    assert all[|init|] == e;
    assert forall k :: 0 <= k < |init| ==> all[k] == init[k];
  }

  /** A (doc, word) pair already seen changes nothing: repeats collapse. */
  lemma GroupIgnoresRepeats(entries: seq<Entry>, e: Entry)
    requires e in entries
    ensures Group(entries + [e]) == Group(entries)
  {
    var all := entries + [e];
    assert all[..|all| - 1] == entries;
    var g := Group(entries);
    var k :| 0 <= k < |entries| && entries[k] == e;
    assert e.doc in DocIds(entries);
    assert e.word in WordIds(entries, e.doc);
    assert e.word in Elems(g.words[e.doc]);
  }

  /** `read_docword` on the file's lines. */
  function ReadDocword(lines: seq<string>): (r: Result<Docs, Error>)
    ensures r.Ok? <==> ParseEntries(DataLines(lines), 3).Ok?
    ensures r.Ok? ==> r.value == Group(ParseEntries(DataLines(lines), 3).value)
  {
    var entries :- ParseEntries(DataLines(lines), 3);
    Ok(Group(entries))
  }

  /** Only the lines after the first three matter. */
  lemma HeaderLinesIgnored(header1: seq<string>, header2: seq<string>, data: seq<string>)
    requires |header1| == 3 && |header2| == 3
    ensures ReadDocword(header1 + data) == ReadDocword(header2 + data)
  {
    assert DataLines(header1 + data) == data;
    assert DataLines(header2 + data) == data;
  }

  // ---------------------------------------------------------------------------
  // read_vocab and the id maps

  /** `read_vocab`: every line stripped of surrounding whitespace. */
  function ReadVocab(lines: seq<string>): (vocab: seq<string>)
    ensures |vocab| == |lines|
  {
    seq(|lines|, k requires 0 <= k < |lines| => Strip(lines[k], IsSpace))
  }

  /** A word without surrounding whitespace. */
  predicate Trimmed(w: string) {
    |w| > 0 ==> !IsSpace(w[0]) && !IsSpace(w[|w| - 1])
  }

  /** Words written one per line, each line padded by whitespace around it (the
      newline `readlines` keeps, say), are read back as the words. */
  lemma ReadVocabRoundTrip(words: seq<string>, pre: seq<string>, post: seq<string>)
    requires |pre| == |words| && |post| == |words|
    requires forall k :: 0 <= k < |words| ==> Trimmed(words[k])
    requires forall k, i :: 0 <= k < |words| && 0 <= i < |pre[k]| ==> IsSpace(pre[k][i])
    requires forall k, i :: 0 <= k < |words| && 0 <= i < |post[k]| ==> IsSpace(post[k][i])
    ensures ReadVocab(seq(|words|, k requires 0 <= k < |words| => pre[k] + words[k] + post[k])) == words
  {
    var lines := seq(|words|, k requires 0 <= k < |words| => pre[k] + words[k] + post[k]);
    forall k | 0 <= k < |words| ensures ReadVocab(lines)[k] == words[k] {
      StripPadding(pre[k], words[k], post[k], IsSpace);
    }
  }

  /** The ids a vocabulary of `n` words assigns: `str(1)` to `str(n)`. */
  function IdRange(n: nat): set<string> {
    set k | 1 <= k <= n :: NatToString(k)
  }

  lemma InIdRange(k: nat, n: nat)
    requires 1 <= k <= n
    ensures NatToString(k) in IdRange(n)
  {
  }

  /** The id of a new last word is not among the earlier ids. */
  lemma NewIdIsFresh(n: nat)
    ensures NatToString(n + 1) !in IdRange(n)
  {
    if NatToString(n + 1) in IdRange(n) {
      var k :| 1 <= k <= n && NatToString(k) == NatToString(n + 1);
      NatToStringInjective(k, n + 1);
      assert false;
    }
  }

  /** `id_to_word` as the loop over the vocabulary leaves it: a key for each of
      the ids `str(1)` to `str(n)` and no other. */
  function IdToWord(vocab: seq<string>): (m: map<string, string>)
    ensures m.Keys == IdRange(|vocab|)
  {
    if |vocab| == 0 then map[]
    else
      var n := |vocab| - 1;
      var id := NatToString(n + 1);
      assert IdRange(n + 1) == IdRange(n) + {id};
      IdToWord(vocab[..n])[id := vocab[n]]
  }

  /** Vocabulary line `i` (from 0) is the word of id `str(i + 1)`: a later line
      never overwrites an earlier id. */
  lemma {:induction false} IdToWordPositions(vocab: seq<string>)
    ensures forall i :: 0 <= i < |vocab| ==> IdToWord(vocab)[NatToString(i + 1)] == vocab[i]
  {
    if |vocab| > 0 {
      var n := |vocab| - 1;
      IdToWordPositions(vocab[..n]);
      NewIdIsFresh(n);
      forall i | 0 <= i < n ensures IdToWord(vocab)[NatToString(i + 1)] == vocab[i] {
        InIdRange(i + 1, n);
        assert vocab[i] == vocab[..n][i];
      }
    }
  }

  /** `word_to_id` as the loop leaves it: every word has a key, mapped to one of
      the vocabulary's ids (the last position of the word when it repeats). */
  function WordToId(vocab: seq<string>): (m: map<string, string>)
    ensures m.Keys == Elems(vocab)
    ensures forall w :: w in m ==> m[w] in IdRange(|vocab|)
  {
    if |vocab| == 0 then map[]
    else
      var n := |vocab| - 1;
      var prev := WordToId(vocab[..n]);
      assert IdRange(n + 1) == IdRange(n) + {NatToString(n + 1)};
      assert Elems(vocab) == Elems(vocab[..n]) + {vocab[n]} by {
        assert vocab == vocab[..n] + [vocab[n]];
      }
      prev[vocab[n] := NatToString(n + 1)]
  }

  /** Translating a word to its id and back gives the word. */
  lemma {:induction false} WordIdRoundTrip(vocab: seq<string>)
    ensures forall w :: w in WordToId(vocab) ==> IdToWord(vocab)[WordToId(vocab)[w]] == w
  {
    if |vocab| > 0 {
      var n := |vocab| - 1;
      WordIdRoundTrip(vocab[..n]);
      NewIdIsFresh(n);
      forall w | w in WordToId(vocab) ensures IdToWord(vocab)[WordToId(vocab)[w]] == w {
        if w != vocab[n] {
          assert WordToId(vocab)[w] == WordToId(vocab[..n])[w];
          assert IdToWord(vocab)[WordToId(vocab)[w]] == IdToWord(vocab[..n])[WordToId(vocab)[w]];
        }
      }
    }
  }

  /** With no repeated words, each word's id is its 1-based position. */
  lemma {:induction false} WordIdsArePositions(vocab: seq<string>)
    requires Distinct(vocab)
    ensures forall i :: 0 <= i < |vocab| ==> WordToId(vocab)[vocab[i]] == NatToString(i + 1)
  {
    if |vocab| > 0 {
      var n := |vocab| - 1;
      var init := vocab[..n];
      assert Distinct(init);
      WordIdsArePositions(init);
      forall i | 0 <= i < n ensures WordToId(vocab)[vocab[i]] == NatToString(i + 1) {
        assert vocab[i] == init[i];
        assert vocab[i] != vocab[n];
      }
    }
  }

  /** An id with a leading zero, "0" or "01" say, is never a vocabulary id. */
  lemma ZeroLedIdUnknown(id: string, n: nat)
    requires |id| >= 1 && id[0] == '0'
    ensures id !in IdRange(n)
  {
  }

  // ---------------------------------------------------------------------------
  // Transactions and output

  /** `[id_to_word[word_id] for word_id in ids]`: the first unknown id fails. */
  function Lookup(ids: seq<string>, idToWord: map<string, string>): (r: Result<seq<string>, Error>)
    ensures r.Ok? <==> forall k :: 0 <= k < |ids| ==> ids[k] in idToWord
    ensures r.Ok? ==> |r.value| == |ids| && forall k :: 0 <= k < |ids| ==> r.value[k] == idToWord[ids[k]]
    ensures r.Err? ==> r.error.UnknownWordId? && r.error.id in ids && r.error.id !in idToWord
  {
    if |ids| == 0 then Ok([])
    else if ids[0] !in idToWord then Err(UnknownWordId(ids[0]))
    else
      var rest :- Lookup(ids[1..], idToWord);
      assert forall k :: 1 <= k < |ids| ==> ids[k] == ids[1..][k - 1];
      Ok([idToWord[ids[0]]] + rest)
  }

  /** Every word id of every listed document is a key of `idToWord`. */
  predicate AllKnown(docs: seq<string>, words: map<string, seq<string>>, idToWord: map<string, string>)
    requires forall j :: 0 <= j < |docs| ==> docs[j] in words
  {
    forall j, k :: 0 <= j < |docs| && 0 <= k < |words[docs[j]]| ==> words[docs[j]][k] in idToWord
  }

  /** The loop over the documents: one transaction per document, in order, each the
      words of that document's ids. */
  function Transactions(docs: seq<string>, words: map<string, seq<string>>, idToWord: map<string, string>)
    : (r: Result<seq<seq<string>>, Error>)
    requires forall j :: 0 <= j < |docs| ==> docs[j] in words
    ensures r.Ok? <==> AllKnown(docs, words, idToWord)
    ensures r.Ok? ==> (
      && |r.value| == |docs|
      && forall j :: 0 <= j < |docs| ==> Lookup(words[docs[j]], idToWord) == Ok(r.value[j]))
    ensures r.Err? ==> r.error.UnknownWordId? && r.error.id !in idToWord
    decreases |docs|
  {
    if |docs| == 0 then Ok([])
    else
      var t :- Lookup(words[docs[0]], idToWord);
      var rest :- Transactions(docs[1..], words, idToWord);
      assert forall j :: 1 <= j < |docs| ==> docs[j] == docs[1..][j - 1];
      Ok([t] + rest)
  }

  /** `"\n".join([",".join(t) for t in transactions])`: no header line, no newline at the end. */
  function Output(ts: seq<seq<string>>): string {
    Join(JoinEach(ts, ','), '\n')
  }

  /** Reading the output back: one line per transaction, which splits on commas
      into that transaction. */
  lemma OutputRoundTrip(ts: seq<seq<string>>)
    requires |ts| >= 1 && Plain(ts, ',', '\n')
    requires forall j :: 0 <= j < |ts| ==> |ts[j]| >= 1
    ensures |Split(Output(ts), '\n')| == |ts|
    ensures forall j :: 0 <= j < |ts| ==> Split(Split(Output(ts), '\n')[j], ',') == ts[j]
  {
    RowsRoundTrip(ts, ',', '\n');
    JoinEachRoundTrip(ts, ',', '\n');
  }

  /** `main` on the lines of the two files. */
  function Convert(docwordLines: seq<string>, vocabLines: seq<string>): Result<string, Error> {
    var g :- ReadDocword(docwordLines);
    var idToWord := IdToWord(ReadVocab(vocabLines));
    var ts :- Transactions(g.order, g.words, idToWord);
    Ok(Output(ts))
  }

  /** Every word id of the grouping is known exactly when every entry's word id is. */
  lemma AllKnownEntries(entries: seq<Entry>, idToWord: map<string, string>)
    ensures var g := Group(entries);
      (forall j :: 0 <= j < |g.order| ==> g.order[j] in g.words)
      && (AllKnown(g.order, g.words, idToWord) <==> forall e :: e in entries ==> e.word in idToWord)
  {
    var g := Group(entries);
    assert forall j :: 0 <= j < |g.order| ==> g.order[j] in g.words by {
      forall j | 0 <= j < |g.order| ensures g.order[j] in g.words {
        assert g.order[j] in Elems(g.order);
      }
    }
    if forall e :: e in entries ==> e.word in idToWord {
      forall j, k | 0 <= j < |g.order| && 0 <= k < |g.words[g.order[j]]|
        ensures g.words[g.order[j]][k] in idToWord
      {
        var d := g.order[j];
        var w := g.words[d][k];
        assert w in Elems(g.words[d]);
        var i :| 0 <= i < |entries| && entries[i].doc == d && entries[i].word == w;
        assert entries[i] in entries;
      }
    } else {
      var e :| e in entries && e.word !in idToWord;
      var i :| 0 <= i < |entries| && entries[i] == e;
      assert e.word in WordIds(entries, e.doc);
      assert e.doc in Elems(g.order);
      var j :| 0 <= j < |g.order| && g.order[j] == e.doc;
      assert e.word in Elems(g.words[e.doc]);
      var k :| 0 <= k < |g.words[e.doc]| && g.words[e.doc][k] == e.word;
    }
  }

  /** The conversion succeeds exactly when every data line has three fields and
      every word id is one of `str(1)` to `str(n)` for the `n` vocabulary lines. */
  lemma ConvertSucceeds(docwordLines: seq<string>, vocabLines: seq<string>)
    ensures var parsed := ParseEntries(DataLines(docwordLines), 3);
      Convert(docwordLines, vocabLines).Ok? <==>
        && parsed.Ok?
        && forall e :: e in parsed.value ==> e.word in IdRange(|vocabLines|)
  {
    var parsed := ParseEntries(DataLines(docwordLines), 3);
    if parsed.Ok? {
      AllKnownEntries(parsed.value, IdToWord(ReadVocab(vocabLines)));
    }
  }

  /** The transaction of each document has as many words as the document has
      distinct word ids. */
  lemma TransactionSizes(entries: seq<Entry>, idToWord: map<string, string>)
    requires var g := Group(entries);
      Transactions(g.order, g.words, idToWord).Ok?
    ensures var g := Group(entries);
      var ts := Transactions(g.order, g.words, idToWord).value;
      |ts| == |DocIds(entries)|
      && forall j :: 0 <= j < |ts| ==> |ts[j]| == |WordIds(entries, g.order[j])|
  {
    var g := Group(entries);
    var ts := Transactions(g.order, g.words, idToWord).value;
    DistinctCardinality(g.order);
    forall j | 0 <= j < |ts| ensures |ts[j]| == |WordIds(entries, g.order[j])| {
      var d := g.order[j];
      assert d in Elems(g.order);
      assert Lookup(g.words[d], idToWord) == Ok(ts[j]);
      assert |ts[j]| == |g.words[d]|;
      DistinctCardinality(g.words[d]);
      assert Elems(g.words[d]) == WordIds(entries, d);
    }
  }
}
