/** The record collection: documents in the store's natural (insertion)
    order, each under its own id, and the id-to-record map they stand for.
    The lemmas state each collection edit the handlers make as an edit of
    that map. */
module Store {
  import opened JsValues
  import opened Forms

  datatype Doc = Doc(id: nat, form: FormRecord)

  /** No two documents share an id. */
  predicate UniqueIds(docs: seq<Doc>) {
    forall i, j :: 0 <= i < j < |docs| ==> docs[i].id != docs[j].id
  }

  function Ids(docs: seq<Doc>): set<nat> {
    set i | 0 <= i < |docs| :: docs[i].id
  }

  /** The records by id (`findById` / `findByIdAndDelete`'s view of the store). */
  function Records(docs: seq<Doc>): (m: map<nat, FormRecord>)
    ensures m.Keys == Ids(docs)
  {
    if |docs| == 0 then map[]
    else
      var last := docs[|docs| - 1];
      assert Ids(docs) == Ids(docs[..|docs| - 1]) + {last.id} by {
        forall id | id in Ids(docs) ensures id in Ids(docs[..|docs| - 1]) + {last.id} {
          var i :| 0 <= i < |docs| && docs[i].id == id;
          if i < |docs| - 1 {
            assert docs[..|docs| - 1][i] == docs[i];
          }
        }
      }
      Records(docs[..|docs| - 1])[last.id := last.form]
  }

  /** Position of the document with the given id, if there is one. */
  function Find(docs: seq<Doc>, id: nat): (r: Option<nat>)
    ensures r.Some? ==> r.value < |docs| && docs[r.value].id == id
    ensures r.None? <==> id !in Ids(docs)
  {
    if |docs| == 0 then None
    else if docs[|docs| - 1].id == id then Some(|docs| - 1)
    else
      var r := Find(docs[..|docs| - 1], id);
      assert Ids(docs) == Ids(docs[..|docs| - 1]) + {docs[|docs| - 1].id} by {
        forall x | x in Ids(docs) ensures x in Ids(docs[..|docs| - 1]) + {docs[|docs| - 1].id} {
          var i :| 0 <= i < |docs| && docs[i].id == x;
          if i < |docs| - 1 {
            assert docs[..|docs| - 1][i] == docs[i];
          }
        }
      }
      r
  }

  /** The collection without its `i`-th document. */
  function RemoveAt(docs: seq<Doc>, i: nat): (r: seq<Doc>)
    requires i < |docs|
    ensures |r| == |docs| - 1
    ensures forall j :: 0 <= j < i ==> r[j] == docs[j]
    ensures forall j :: i <= j < |r| ==> r[j] == docs[j + 1]
  {
    docs[..i] + docs[i + 1..]
  }

  /** With unique ids, the map gives each document's record under its id. */
  lemma {:induction false} RecordsAt(docs: seq<Doc>, i: nat)
    requires UniqueIds(docs)
    requires i < |docs|
    ensures docs[i].id in Records(docs) && Records(docs)[docs[i].id] == docs[i].form
  {
    var n := |docs| - 1;
    if i < n {
      var prefix := docs[..n];
      assert prefix[i] == docs[i];
      RecordsAt(prefix, i);
    }
  }

  /** A document found by id holds the record the map gives for that id. */
  lemma FindAgreesWithRecords(docs: seq<Doc>, id: nat)
    requires UniqueIds(docs)
    ensures Find(docs, id).Some? <==> id in Records(docs)
    ensures Find(docs, id).Some? ==> Records(docs)[id] == docs[Find(docs, id).value].form
  {
    if Find(docs, id).Some? {
      RecordsAt(docs, Find(docs, id).value);
    }
  }

  /** Appending a document adds its id to the map and keeps every other entry. */
  lemma RecordsAppend(docs: seq<Doc>, d: Doc)
    ensures Records(docs + [d]) == Records(docs)[d.id := d.form]
  {
    assert (docs + [d])[..|docs|] == docs;
  }

  /** Overwriting the `i`-th document's record overwrites that id's entry
      and nothing else. */
  lemma {:induction false} RecordsReplace(docs: seq<Doc>, i: nat, form: FormRecord)
    requires UniqueIds(docs)
    requires i < |docs|
    ensures Records(docs[i := Doc(docs[i].id, form)]) == Records(docs)[docs[i].id := form]
  {
    var n := |docs| - 1;
    var docs' := docs[i := Doc(docs[i].id, form)];
    var last := docs[n];
    if i == n {
      assert docs'[..n] == docs[..n];
    } else {
      var prefix := docs[..n];
      assert docs'[..n] == prefix[i := Doc(docs[i].id, form)];
      RecordsReplace(prefix, i, form);
      assert last.id != docs[i].id;
    }
  }

  /** The last document's id is not among the earlier ones. */
  lemma LastIdFresh(docs: seq<Doc>)
    requires UniqueIds(docs)
    requires |docs| > 0
    ensures docs[|docs| - 1].id !in Ids(docs[..|docs| - 1])
  {
    var n := |docs| - 1;
    assert forall j :: 0 <= j < n ==> docs[..n][j].id != docs[n].id;
  }

  /** Removing the `i`-th document removes exactly its id from the map. */
  lemma {:induction false} RecordsRemove(docs: seq<Doc>, i: nat)
    requires UniqueIds(docs)
    requires i < |docs|
    ensures Records(RemoveAt(docs, i)) == Records(docs) - {docs[i].id}
  {
    var n := |docs| - 1;
    if i == n {
      RecordsRemoveLast(docs);
    } else {
      var prefix := docs[..n];
      var last := docs[n];
      var rest := RemoveAt(prefix, i);
      assert RemoveAt(docs, i) == rest + [last];
      assert prefix[i] == docs[i];
      RecordsRemove(prefix, i);
      RecordsAppend(rest, last);
      assert last.id != docs[i].id;
      MapUpdateRemoveCommute(Records(prefix), last.id, last.form, docs[i].id);
    }
  }

  lemma RecordsRemoveLast(docs: seq<Doc>)
    requires UniqueIds(docs)
    requires |docs| > 0
    ensures Records(RemoveAt(docs, |docs| - 1)) == Records(docs) - {docs[|docs| - 1].id}
  {
    var n := |docs| - 1;
    assert RemoveAt(docs, n) == docs[..n];
    LastIdFresh(docs);
  }

  lemma MapUpdateRemoveCommute(m: map<nat, FormRecord>, k: nat, v: FormRecord, x: nat)
    requires k != x
    ensures (m - {x})[k := v] == m[k := v] - {x}
  {
  }

  /** Removing a document keeps the remaining ids distinct. */
  lemma RemoveKeepsUnique(docs: seq<Doc>, i: nat)
    requires UniqueIds(docs)
    requires i < |docs|
    ensures UniqueIds(RemoveAt(docs, i))
    ensures Ids(RemoveAt(docs, i)) == Ids(docs) - {docs[i].id}
  {
    RecordsRemove(docs, i);
  }
}
