/**
 * A stand-in for the host's configuration document store, reduced to what
 * the database initializer uses: look a document up by id, create one.
 * Documents are kept by id; every mutation is recorded in a ghost log so
 * that callers can state how many mutations they performed.
 */
module ConfigurationStore {
  import opened Wrappers

  /** The id of the one GitHub configuration document (the default id the
      configuration resource carries). */
  const SingletonId: string := "issuetracker-github"

  /** A stored document: its id and its fields, which this model leaves
      uninterpreted. */
  datatype Doc = Doc(id: string, fields: map<string, string>)

  /** A change made to the store. */
  datatype Mutation = Created(doc: Doc)

  /** The store after creating `doc` under an id not yet used: the document
      appears under its id and every other id keeps its document. */
  function AfterCreate(docs: map<string, Doc>, doc: Doc): (r: map<string, Doc>)
    requires doc.id !in docs
    ensures doc.id in r && r[doc.id] == doc
    ensures r.Keys == docs.Keys + {doc.id}
    ensures forall id :: id in docs ==> r[id] == docs[id]
  {
    docs[doc.id := doc]
  }

  class Store {
    var docs: map<string, Doc>
    ghost var log: seq<Mutation>

    constructor (initial: map<string, Doc>)
      ensures docs == initial && log == []
    {
      docs := initial;
      log := [];
    }

    /** `Get<T>(id)`: the document under `id`, or null. */
    method Get(id: string) returns (doc: Option<Doc>)
      ensures doc.Some? <==> id in docs
      ensures doc.Some? ==> doc.value == docs[id]
    {
      doc := if id in docs then Some(docs[id]) else None;
    }

    /** `Create(doc)`: stores a new document under its id; the mutation is
        logged. Creating under an id already in use is not modelled. */
    method Create(doc: Doc)
      requires doc.id !in docs
      modifies this
      ensures docs == AfterCreate(old(docs), doc)
      ensures log == old(log) + [Created(doc)]
    {
      docs := AfterCreate(docs, doc);
      log := log + [Created(doc)];
    }
  }
}
