/**
 * The database initializer: when the host's database comes up, make sure
 * the GitHub configuration document exists, creating a default one only if
 * the lookup finds none. The freshly constructed default document is a
 * parameter; its fields are not part of this model, only that it carries
 * the singleton id.
 */
module DatabaseInitializer {
  import opened Wrappers
  import opened ConfigurationStore

  /** The documents after initialisation, as a function of the documents
      before it (the default document carries the singleton id): the
      singleton document exists; an existing one is kept as it was, a
      missing one becomes the default; no other id is touched. */
  function Initialized(docs: map<string, Doc>, defaults: Doc): (r: map<string, Doc>)
    requires defaults.id == SingletonId
    ensures SingletonId in r
    ensures SingletonId in docs ==> r[SingletonId] == docs[SingletonId]
    ensures SingletonId !in docs ==> r[SingletonId] == defaults
    ensures r.Keys == docs.Keys + {SingletonId}
    ensures forall id :: id in docs && id != SingletonId ==> r[id] == docs[id]
  {
    if SingletonId in docs then docs else AfterCreate(docs, defaults)
  }

  /** Running the initialisation twice is the same as running it once. */
  lemma InitializedIdempotent(docs: map<string, Doc>, defaults: Doc)
    requires defaults.id == SingletonId
    ensures Initialized(Initialized(docs, defaults), defaults) == Initialized(docs, defaults)
  {
  }

  class Initializer {
    const store: Store
    const defaults: Doc

    constructor (store: Store, defaults: Doc)
      requires defaults.id == SingletonId
      ensures this.store == store && this.defaults == defaults && Valid()
    {
      this.store := store;
      this.defaults := defaults;
    }

    ghost predicate Valid() {
      defaults.id == SingletonId
    }

    /** Looks the singleton document up and creates the default one only
        when the lookup returns null: at most one mutation, a `Create`. */
    method Execute()
      requires Valid()
      modifies store
      ensures store.docs == Initialized(old(store.docs), defaults)
      ensures SingletonId in old(store.docs) ==> store.docs == old(store.docs) && store.log == old(store.log)
      ensures SingletonId !in old(store.docs) ==> store.log == old(store.log) + [Created(defaults)]
    {
      var doc := store.Get(SingletonId);
      if doc.Some? {
        return;
      }
      store.Create(defaults);
    }

    /** Two runs leave the store as one run does, and the second run
        performs no mutation. */
    method ExecuteTwice()
      requires Valid()
      modifies store
      ensures store.docs == Initialized(old(store.docs), defaults)
      ensures store.log == old(store.log) + (if SingletonId in old(store.docs) then [] else [Created(defaults)])
    {
      Execute();
      Execute();
    }
  }
}
