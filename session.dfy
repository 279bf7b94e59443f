/** The session dictionary, st.session_state.slang_dict: seeded once from the
    loader (streamlit_app.py:109-114), read by the normalizer tab
    (streamlit_app.py:139-141) and extended in place by the add form
    (streamlit_app.py:216-228). */
module Session {
  import opened Text
  import Builder
  import Normalizer

  /** What the add form reports. */
  datatype AddOutcome =
    | MissingField   // "Please fill out both fields."
    | AlreadyExists  // "'...' already exists in the dictionary!"
    | Added          // "Success! Added ..."

  class SlangStore {
    var entries: map<string, string>

    /** Keys and meanings are lower case with no surrounding whitespace: the
        loader and the add form both clean what they store. */
    ghost predicate Valid()
      reads this
    {
      Builder.CleanDictionary(entries)
    }

    constructor (seed: map<string, string>)
      requires Builder.CleanDictionary(seed)
      ensures Valid() && entries == seed
    {
      entries := seed;
    }

    /** The add form's handler: an empty raw field is refused, both fields are
        cleaned, an existing cleaned slang is refused, and otherwise the one
        new pair is inserted in place. */
    method Add(newSlang: string, newMeaning: string) returns (outcome: AddOutcome)
      requires Valid()
      modifies this
      ensures Valid()
      ensures outcome == MissingField <==> newSlang == "" || newMeaning == ""
      ensures outcome == AlreadyExists <==> newSlang != "" && newMeaning != "" && Clean(newSlang) in old(entries)
      ensures outcome == Added ==> entries == old(entries)[Clean(newSlang) := Clean(newMeaning)]
      ensures outcome == Added ==> |entries| == |old(entries)| + 1
      ensures outcome != Added ==> entries == old(entries)
    {
      if newSlang == "" || newMeaning == "" {
        outcome := MissingField;
      } else {
        var cleanSlang := Clean(newSlang);
        var cleanMeaning := Clean(newMeaning);
        if cleanSlang in entries {
          outcome := AlreadyExists;
        } else {
          entries := entries[cleanSlang := cleanMeaning];
          outcome := Added;
        }
      }
    }

    /** The normalizer tab: it reads the session dictionary and cannot change it. */
    method Normalize(sentence: string) returns (output: string)
      ensures output == Normalizer.Normalized(sentence, entries)
    {
      output := Normalizer.NormalizeSlang(sentence, entries);
    }
  }

  /** Session start: the loaded dictionary seeds the store, and the app goes
      on only when a dictionary was loaded and is not empty
      (streamlit_app.py:114, 244). */
  method StartSession(t: Builder.Table) returns (store: SlangStore?)
    requires Builder.Rectangular(t)
    ensures store == null <==> Builder.Build(t).None? || Builder.Build(t).value == map[]
    ensures store != null ==> fresh(store) && store.Valid() && store.entries == Builder.Build(t).value
  {
    var loaded := Builder.Build(t);
    if loaded.Some? && loaded.value != map[] {
      store := new SlangStore(loaded.value);
    } else {
      store := null;
    }
  }
}
