/** The record store: a collection keyed by `question_id`, written through the
    count-then-insert pattern of main.py:211-215. */
module Storage {
  import opened Records

  function Ids(docs: seq<QaRecord>): (r: seq<string>)
    ensures |r| == |docs|
    ensures forall i :: 0 <= i < |docs| ==> r[i] == docs[i].questionId
  {
    seq(|docs|, i requires 0 <= i < |docs| => docs[i].questionId)
  }

  /** `count_documents({'question_id': id})`. */
  function CountWithId(docs: seq<QaRecord>, id: string): (n: nat)
    ensures n <= |docs|
    ensures n == 0 <==> id !in Ids(docs)
    decreases |docs|
  {
    if docs == [] then 0
    else
      var init := docs[..|docs| - 1];
      assert Ids(docs) == Ids(init) + [docs[|docs| - 1].questionId];
      CountWithId(init, id) + (if docs[|docs| - 1].questionId == id then 1 else 0)
  }

  /** No two stored records share a `question_id`. */
  predicate UniqueIds(docs: seq<QaRecord>) {
    forall i, j :: 0 <= i < j < |docs| ==> docs[i].questionId != docs[j].questionId
  }

  /** One step of the scraper's store: insert `record` only when its id is absent. */
  function SaveIfAbsent(docs: seq<QaRecord>, record: QaRecord): seq<QaRecord> {
    if CountWithId(docs, record.questionId) == 0 then docs + [record] else docs
  }

  /** Every record of `records` offered to the store in turn. */
  function SaveAll(docs: seq<QaRecord>, records: seq<QaRecord>): seq<QaRecord>
    decreases |records|
  {
    if records == [] then docs
    else SaveIfAbsent(SaveAll(docs, records[..|records| - 1]), records[|records| - 1])
  }

  /** The insert adds the record exactly when its id is absent, keeps the stored
      records as they were, and leaves the id present. */
  lemma SaveIfAbsentEffect(docs: seq<QaRecord>, record: QaRecord)
    ensures record.questionId !in Ids(docs) ==> SaveIfAbsent(docs, record) == docs + [record]
    ensures record.questionId in Ids(docs) ==> SaveIfAbsent(docs, record) == docs
    ensures record.questionId in Ids(SaveIfAbsent(docs, record))
  {
    var r := SaveIfAbsent(docs, record);
    if record.questionId !in Ids(docs) {
      assert r[|docs|] == record;
    }
  }

  /** The store keeps `question_id` unique. */
  lemma SaveIfAbsentKeepsUnique(docs: seq<QaRecord>, record: QaRecord)
    requires UniqueIds(docs)
    ensures UniqueIds(SaveIfAbsent(docs, record))
  {
    SaveIfAbsentEffect(docs, record);
  }

  /** With unique ids, at most one record carries any id. */
  lemma {:induction false} UniqueCountAtMostOne(docs: seq<QaRecord>, id: string)
    requires UniqueIds(docs)
    ensures CountWithId(docs, id) <= 1
    decreases |docs|
  {
    if docs != [] {
      var init := docs[..|docs| - 1];
      assert UniqueIds(init);
      UniqueCountAtMostOne(init, id);
      if docs[|docs| - 1].questionId == id {
        assert id !in Ids(init);
      }
    }
  }

  /** Inserting the same id twice leaves exactly one record with that id, and the
      second attempt changes nothing. */
  lemma SaveTwice(docs: seq<QaRecord>, record: QaRecord, again: QaRecord)
    requires UniqueIds(docs) && again.questionId == record.questionId
    ensures SaveIfAbsent(SaveIfAbsent(docs, record), again) == SaveIfAbsent(docs, record)
    ensures CountWithId(SaveIfAbsent(SaveIfAbsent(docs, record), again), record.questionId) == 1
  {
    var once := SaveIfAbsent(docs, record);
    SaveIfAbsentEffect(docs, record);
    SaveIfAbsentEffect(once, again);
    SaveIfAbsentKeepsUnique(docs, record);
    UniqueCountAtMostOne(once, record.questionId);
  }

  /** Offering a batch keeps the ids unique and the earlier records in place. */
  lemma {:induction false} SaveAllKeepsUniqueAndPrefix(docs: seq<QaRecord>, records: seq<QaRecord>)
    requires UniqueIds(docs)
    ensures UniqueIds(SaveAll(docs, records))
    ensures |docs| <= |SaveAll(docs, records)| <= |docs| + |records|
    ensures SaveAll(docs, records)[..|docs|] == docs
    decreases |records|
  {
    if records != [] {
      var before := SaveAll(docs, records[..|records| - 1]);
      SaveAllKeepsUniqueAndPrefix(docs, records[..|records| - 1]);
      SaveIfAbsentKeepsUnique(before, records[|records| - 1]);
      SaveIfAbsentEffect(before, records[|records| - 1]);
      assert SaveAll(docs, records)[..|before|][..|docs|] == before[..|docs|];
    }
  }

  lemma SaveIfAbsentIds(docs: seq<QaRecord>, record: QaRecord, id: string)
    ensures id in Ids(SaveIfAbsent(docs, record)) <==> id in Ids(docs) || id == record.questionId
  {
    SaveIfAbsentEffect(docs, record);
    if record.questionId !in Ids(docs) {
      assert Ids(docs + [record]) == Ids(docs) + [record.questionId];
    }
  }

  /** After a batch, an id is stored exactly when it was stored before or came in the batch. */
  lemma {:induction false} SaveAllIds(docs: seq<QaRecord>, records: seq<QaRecord>, id: string)
    ensures id in Ids(SaveAll(docs, records)) <==> id in Ids(docs) || id in Ids(records)
    decreases |records|
  {
    if records != [] {
      var init, last := records[..|records| - 1], records[|records| - 1];
      SaveAllIds(docs, init, id);
      SaveIfAbsentIds(SaveAll(docs, init), last, id);
      assert Ids(records) == Ids(init) + [last.questionId];
    }
  }

  /** A batch whose every id is already stored changes nothing. */
  lemma {:induction false} SaveAllPresent(docs: seq<QaRecord>, records: seq<QaRecord>)
    requires forall i :: 0 <= i < |records| ==> records[i].questionId in Ids(docs)
    ensures SaveAll(docs, records) == docs
    decreases |records|
  {
    if records != [] {
      SaveAllPresent(docs, records[..|records| - 1]);
      SaveIfAbsentEffect(docs, records[|records| - 1]);
    }
  }

  /** Offering the same batch twice stores it once. */
  lemma SaveAllTwice(docs: seq<QaRecord>, records: seq<QaRecord>)
    ensures SaveAll(SaveAll(docs, records), records) == SaveAll(docs, records)
  {
    var once := SaveAll(docs, records);
    forall i | 0 <= i < |records| ensures records[i].questionId in Ids(once) {
      SaveAllIds(docs, records, records[i].questionId);
    }
    SaveAllPresent(once, records);
  }

  /** Offering one more record is one more check-then-insert. */
  lemma SaveAllSnoc(docs: seq<QaRecord>, records: seq<QaRecord>, record: QaRecord)
    ensures SaveAll(docs, records + [record]) == SaveIfAbsent(SaveAll(docs, records), record)
  {
    assert (records + [record])[..|records|] == records;
  }

  /** Offering two batches one after the other is offering their concatenation. */
  lemma {:induction false} SaveAllConcat(docs: seq<QaRecord>, a: seq<QaRecord>, b: seq<QaRecord>)
    ensures SaveAll(SaveAll(docs, a), b) == SaveAll(docs, a + b)
    decreases |b|
  {
    if b == [] {
      assert a + b == a;
    } else {
      var init, last := b[..|b| - 1], b[|b| - 1];
      assert b == init + [last];
      assert a + b == (a + init) + [last];
      calc {
        SaveAll(SaveAll(docs, a), b);
        { SaveAllSnoc(SaveAll(docs, a), init, last); }
        SaveIfAbsent(SaveAll(SaveAll(docs, a), init), last);
        { SaveAllConcat(docs, a, init); }
        SaveIfAbsent(SaveAll(docs, a + init), last);
        { SaveAllSnoc(docs, a + init, last); }
        SaveAll(docs, a + b);
      }
    }
  }

  /** The MongoDB collection `qa_pairs`, as the sequence of its documents in insertion order. */
  class QaCollection {
    var documents: seq<QaRecord>

    constructor ()
      ensures documents == []
    {
      documents := [];
    }

    /** `count_documents({'question_id': id})`. */
    function CountDocuments(id: string): (n: nat)
      reads this
      ensures n <= |documents|
      ensures n == 0 <==> id !in Ids(documents)
    {
      CountWithId(documents, id)
    }

    /** `insert_one(record)`. */
    method InsertOne(record: QaRecord)
      modifies this
      ensures documents == old(documents) + [record]
    {
      documents := documents + [record];
    }
  }
}
