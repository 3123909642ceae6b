/** The note store: notes, the notebook that holds them by name beside an
    inverse index from text to name, whole-token search over that index, and
    the auto-save of the notes after every change. */
module Notes {
  import opened Dicts
  import opened Tokens

  datatype Option<T> = None | Some(value: T)

  /** What a pickled `Note` keeps: its name and its contents. */
  datatype NoteValue = NoteValue(name: string, text: string)

  /** The value of the note a lookup of a missing name returns. */
  const Placeholder := NoteValue("", "")

  /** A named piece of text. The name is fixed; the contents can be replaced. */
  class Note {
    const noteName: string
    var contents: string

    constructor (name: string, contents: string)
      ensures Name() == name && Text() == contents
    {
      noteName := name;
      this.contents := contents;
    }

    function Text(): string
      reads this`contents
    {
      contents
    }

    function Name(): string {
      noteName
    }

    function Value(): NoteValue
      reads this`contents
    {
      NoteValue(noteName, contents)
    }

    method Update(newText: string)
      modifies this
      ensures Text() == newText
    {
      contents := newText;
    }
  }

  /** Distinct names hold distinct Note objects. */
  ghost predicate Unaliased(d: Dict<string, Note>) {
    forall k1, k2 :: k1 in d.vals && k2 in d.vals && d.vals[k1] == d.vals[k2] ==> k1 == k2
  }

  /** Storing a note that no other name holds keeps names and notes one to one. */
  lemma UnaliasedPut(d: Dict<string, Note>, k: string, n: Note)
    requires d.Valid() && Unaliased(d)
    requires forall k' :: k' in d.vals && k' != k ==> d.vals[k'] != n
    ensures Unaliased(d.Put(k, n))
  {
  }

  /** The values of the notes held in `d`, in `d`'s order. */
  function ViewOf(d: Dict<string, Note>): (c: Dict<string, NoteValue>)
    reads d.vals.Values`contents
    ensures d.Valid() ==> c.Valid()
  {
    var c := Dict(d.keys, map k | k in d.vals :: d.vals[k].Value());
    assert c.vals.Keys == d.vals.Keys;
    c
  }

  /** Storing a note under a name changes the view at that name only. */
  lemma ViewOfPut(d: Dict<string, Note>, k: string, n: Note)
    requires d.Valid()
    ensures ViewOf(d.Put(k, n)) == ViewOf(d).Put(k, n.Value())
  {
    assert ViewOf(d.Put(k, n)).vals == ViewOf(d).Put(k, n.Value()).vals;
  }

  /** Notes holding the stored values under the stored names view as the stored
      dictionary. */
  lemma ViewOfStored(d: Dict<string, Note>, stored: Dict<string, NoteValue>)
    requires d.Valid() && stored.Valid() && d.keys == stored.keys
    requires forall k :: k in d.vals ==> k in stored.vals && d.vals[k].Value() == stored.vals[k]
    ensures ViewOf(d) == stored
  {
    SameKeys(d, stored);
    assert ViewOf(d).vals == stored.vals;
  }

  /** The notes a notebook starts with: the stored snapshot when the cache
      directory and the file in it exist, and none otherwise. */
  function Loaded(dirExists: bool, file: Option<Dict<string, NoteValue>>): Dict<string, NoteValue> {
    if dirExists && file.Some? then file.value else Empty()
  }

  // ---------------------------------------------------------------------
  // The inverse index built at construction

  /** Each name mapped to its note's text, in the notes' order. */
  function Texts(c: Dict<string, NoteValue>): (t: Dict<string, string>)
    ensures t.keys == c.keys && t.vals.Keys == c.vals.Keys
    ensures forall k :: k in c.vals ==> t.vals[k] == c.vals[k].text
    ensures c.Valid() ==> t.Valid()
  {
    var t := Dict(c.keys, map k | k in c.vals :: c.vals[k].text);
    assert t.vals.Keys == c.vals.Keys;
    t
  }

  /** `{note.text(): name for name, note in notes.items()}`: each note's text
      is assigned its name in turn, so a text shared by several notes names
      the last of them (`InverseIndexNamesLast`) and sits where the first of
      them put it (`InvertOfGrows`). */
  function InverseIndex(c: Dict<string, NoteValue>): (inv: Dict<string, string>)
    requires c.Valid()
    ensures inv.Valid()
  {
    ValidMeans(Texts(c));
    InvertOfValid(c.keys, Texts(c).vals);
    Invert(Texts(c))
  }

  /** A text is indexed exactly when some note has it. */
  lemma InverseIndexHas(c: Dict<string, NoteValue>, t: string)
    requires c.Valid()
    ensures t in InverseIndex(c).vals <==> exists k :: k in c.vals && c.vals[k].text == t
  {
    var d := Texts(c);
    ValidMeans(d);
    InvertOfHasValue(d.keys, d.vals, t);
    if t in InverseIndex(c).vals {
      var i :| 0 <= i < |d.keys| && d.vals[d.keys[i]] == t;
      assert d.keys[i] in c.vals && c.vals[d.keys[i]].text == t;
    } else {
      forall k | k in c.vals ensures c.vals[k].text != t {
        var i :| 0 <= i < |d.keys| && d.keys[i] == k;
      }
    }
  }

  /** An indexed text names a note that has that text: the last one, in the
      notes' order. */
  lemma InverseIndexNamesLast(c: Dict<string, NoteValue>, i: nat)
    requires c.Valid() && i < |c.keys| && c.keys[i] in c.vals
    requires forall j :: i < j < |c.keys| && c.keys[j] in c.vals ==> c.vals[c.keys[j]].text != c.vals[c.keys[i]].text
    ensures c.vals[c.keys[i]].text in InverseIndex(c).vals
    ensures InverseIndex(c).vals[c.vals[c.keys[i]].text] == c.keys[i]
  {
    var d := Texts(c);
    ValidMeans(d);
    InvertOfLastWins(d.keys, d.vals, i);
  }

  /** When no two notes share a text, the inverse index inverts the notes
      exactly: its texts are the notes' texts and each names its note. */
  lemma InverseIndexExact(c: Dict<string, NoteValue>)
    requires c.Valid()
    requires forall k1, k2 :: k1 in c.vals && k2 in c.vals && k1 != k2 ==> c.vals[k1].text != c.vals[k2].text
    ensures forall k :: k in c.vals ==> c.vals[k].text in InverseIndex(c).vals && InverseIndex(c).vals[c.vals[k].text] == k
    ensures forall t :: t in InverseIndex(c).vals ==> exists k :: k in c.vals && c.vals[k].text == t
  {
    InvertExact(Texts(c));
  }

  /** Every note's text is a key of `inv`. */
  ghost predicate IndexedBy(c: Dict<string, NoteValue>, inv: Dict<string, string>) {
    forall k :: k in c.vals ==> c.vals[k].text in inv.vals
  }

  /** The inverse index built from the notes indexes every note. */
  lemma InverseIndexCovers(c: Dict<string, NoteValue>)
    requires c.Valid()
    ensures IndexedBy(c, InverseIndex(c))
  {
    forall k | k in c.vals ensures c.vals[k].text in InverseIndex(c).vals {
      InverseIndexHas(c, c.vals[k].text);
    }
  }

  /** Adding a note and mapping its text to its name keeps every note indexed. */
  lemma IndexedByPut(c: Dict<string, NoteValue>, inv: Dict<string, string>, name: string, text: string)
    requires c.Valid() && inv.Valid() && IndexedBy(c, inv)
    ensures IndexedBy(c.Put(name, NoteValue(name, text)), inv.Put(text, name))
  {
  }

  // ---------------------------------------------------------------------
  // Search

  /** The indexed texts whose bag of words holds `term`. */
  function Hits(inv: Dict<string, string>, term: string): set<string> {
    set t | t in inv.vals && term in Bow(t)
  }

  /** The names `find` reports: walking the inverse index in order, the name
      of each text whose bag of words holds `term`. */
  function Search(inv: Dict<string, string>, term: string): seq<string>
    requires inv.Valid()
  {
    ValidMeans(inv);
    Select(inv.keys, inv.vals, Hits(inv, term))
  }

  /** A name is reported exactly when some indexed text holding the term names it. */
  lemma SearchHas(inv: Dict<string, string>, term: string, n: string)
    requires inv.Valid()
    ensures n in Search(inv, term) <==>
      exists t :: t in inv.vals && term in Bow(t) && inv.vals[t] == n
  {
    ValidMeans(inv);
    SelectHas(inv.keys, inv.vals, Hits(inv, term), n);
    if !(n in Search(inv, term)) {
      forall t | t in inv.vals && term in Bow(t) ensures inv.vals[t] != n {
        var i :| 0 <= i < |inv.keys| && inv.keys[i] == t;
      }
    }
  }

  /** Nothing is reported exactly when no indexed text holds the term. */
  lemma SearchNone(inv: Dict<string, string>, term: string)
    requires inv.Valid()
    ensures Search(inv, term) == [] <==> forall t :: t in inv.vals ==> term !in Bow(t)
  {
    ValidMeans(inv);
    SelectNone(inv.keys, inv.vals, Hits(inv, term));
    if Search(inv, term) == [] {
      forall t | t in inv.vals ensures term !in Bow(t) {
        var i :| 0 <= i < |inv.keys| && inv.keys[i] == t;
      }
    }
  }

  /** A term with an upper-case letter finds nothing. */
  lemma SearchUpperTerm(inv: Dict<string, string>, term: string, k: nat)
    requires inv.Valid()
    requires k < |term| && IsUpper(term[k])
    ensures Search(inv, term) == []
  {
    forall t | t in inv.vals ensures term !in Bow(t) {
      UpperTermNeverInBow(t, term, k);
    }
    SearchNone(inv, term);
  }

  /** The index of no notes is empty. */
  lemma InverseIndexEmpty()
    ensures InverseIndex(Empty()) == Empty()
  {
    assert Texts(Empty<string, NoteValue>()).keys == [];
  }

  lemma SearchEmpty(term: string)
    ensures Search(Empty(), term) == []
  {
  }

  /** Indexing a new text appends its name to what search reports exactly when
      the text's bag of words holds the term, and changes nothing before it. */
  lemma SearchPutNew(inv: Dict<string, string>, t: string, n: string, term: string)
    requires inv.Valid() && t !in inv.vals
    ensures inv.Put(t, n).Valid()
    ensures Search(inv.Put(t, n), term) == Search(inv, term) + (if term in Bow(t) then [n] else [])
  {
    var e := inv.Put(t, n);
    PutValid(inv, t, n);
    ValidMeans(inv);
    ValidMeans(e);
    assert e.keys[..|e.keys| - 1] == inv.keys;
    SelectFrame(inv.keys, e.vals, inv.vals, Hits(e, term), Hits(inv, term));
  }

  /** Re-indexing a text that is already there moves nothing: search walks the
      same texts in the same order and reports the new name where it reported
      the old one. */
  lemma SearchPutOld(inv: Dict<string, string>, t: string, n': string, term: string)
    requires inv.Valid() && t in inv.vals
    requires forall i :: 0 <= i < |inv.keys| ==> inv.keys[i] in inv.vals
    ensures inv.Put(t, n').Valid()
    ensures Search(inv.Put(t, n'), term) == Select(inv.keys, inv.vals[t := n'], Hits(inv, term))
  {
    var e := inv.Put(t, n');
    PutValid(inv, t, n');
    ValidMeans(e);
    assert e.keys == inv.keys;
    assert e.vals.Keys == inv.vals.Keys;
    assert Hits(e, term) == Hits(inv, term);
  }

  /** For an index holding only that text, search reports the new name in
      place of the old one. */
  lemma SearchPutSingle(t: string, n: string, n': string, term: string)
    ensures Search(Empty().Put(t, n).Put(t, n'), term) == if term in Bow(t) then [n'] else []
  {
    var e := Empty().Put(t, n).Put(t, n');
    assert e.keys == [t];
    assert e.vals == map[t := n'];
    assert e.keys[..0] == [];
    assert t in Hits(e, term) <==> term in Bow(t);
    assert Search(e, term) == Select(e.keys[..0], e.vals, Hits(e, term)) + (if t in Hits(e, term) then [e.vals[t]] else []);
  }

  /** Over an index built from notes no two of which share a text, search
      reports exactly the notes whose bag of words holds the term. */
  lemma SearchIndexExact(c: Dict<string, NoteValue>, term: string, n: string)
    requires c.Valid()
    requires forall k1, k2 :: k1 in c.vals && k2 in c.vals && k1 != k2 ==> c.vals[k1].text != c.vals[k2].text
    ensures n in Search(InverseIndex(c), term) <==> n in c.vals && term in Bow(c.vals[n].text)
  {
    var inv := InverseIndex(c);
    InverseIndexExact(c);
    SearchHas(inv, term, n);
    if n in c.vals && term in Bow(c.vals[n].text) {
      assert inv.vals[c.vals[n].text] == n;
    }
  }

  // ---------------------------------------------------------------------
  // The notebook

  class Notebook {
    /** `_notes`: name to Note, in first-insertion order. */
    var notes: Dict<string, Note>
    /** `_inv_notes`: text to name, in first-insertion order. */
    var invNotes: Dict<string, string>
    /** The notes last written to the cache file, if any. */
    ghost var snapshot: Option<Dict<string, NoteValue>>
    ghost var cacheDirExists: bool

    ghost predicate Valid()
      reads this`notes, this`invNotes
    {
      notes.Valid() && invNotes.Valid() && Unaliased(notes)
    }

    /** The name-to-contents mapping the notebook holds. */
    function Contents(): Dict<string, NoteValue>
      reads this`notes, notes.vals.Values`contents
    {
      ViewOf(notes)
    }

    /** Every stored note's current text is a key of the inverse index. */
    ghost predicate Indexed()
      reads this`notes, this`invNotes, notes.vals.Values`contents
    {
      IndexedBy(Contents(), invNotes)
    }

    /** `Notebook()`: load the cached notes and build the inverse index from them.
        `dirExists` and `file` stand for the cache directory and the unpickled
        contents of the cache file, when it exists. */
    constructor (dirExists: bool, file: Option<Dict<string, NoteValue>>)
      requires file.Some? ==> file.value.Valid()
      ensures Valid() && Indexed()
      ensures Contents() == Loaded(dirExists, file)
      ensures invNotes == InverseIndex(Contents())
      ensures snapshot == (if dirExists then file else None)
      ensures cacheDirExists
      ensures fresh(notes.vals.Values)
    {
      var loaded := LoadCacheNotes(dirExists, file);
      ghost var view := ViewOf(loaded);
      InverseIndexCovers(view);
      notes := loaded;
      invNotes := InverseIndex(ViewOf(loaded));
      snapshot := if dirExists then file else None;
      cacheDirExists := true;
      new;
      assert Contents() == view;
    }

    /** `_load_cache_notes`: the cached notes as fresh Note objects, or no
        notes when the cache directory or the file is missing. */
    static method LoadCacheNotes(dirExists: bool, file: Option<Dict<string, NoteValue>>)
      returns (loaded: Dict<string, Note>)
      requires file.Some? ==> file.value.Valid()
      ensures loaded.Valid() && Unaliased(loaded)
      ensures fresh(loaded.vals.Values)
      ensures ViewOf(loaded) == Loaded(dirExists, file)
    {
      loaded := Empty();
      if !dirExists || file.None? {
        return;
      }
      var stored := file.value;
      ValidMeans(stored);
      var i := 0;
      while i < |stored.keys|
        invariant 0 <= i <= |stored.keys|
        invariant loaded.Valid() && Unaliased(loaded)
        invariant loaded.keys == stored.keys[..i]
        invariant forall k :: k in loaded.vals ==>
          k in stored.vals && fresh(loaded.vals[k]) && loaded.vals[k].Value() == stored.vals[k]
      {
        var k := stored.keys[i];
        assert stored.keys[..i + 1] == stored.keys[..i] + [k];
        NextKeyIsNew(loaded, stored.keys, i);
        var n := new Note(stored.vals[k].name, stored.vals[k].text);
        UnaliasedPut(loaded, k, n);
        PutValid(loaded, k, n);
        loaded := loaded.Put(k, n);
        i := i + 1;
      }
      assert loaded.keys == stored.keys;
      ViewOfStored(loaded, stored);
    }

    /** `__getitem__`: the stored Note itself, or a new placeholder note with
        empty name and contents when the name is not stored. */
    method Get(name: string) returns (n: Note)
      requires Valid()
      ensures name in notes.vals ==> n == notes.vals[name]
      ensures name !in notes.vals ==> fresh(n)
      ensures name in notes.vals ==> n.Value() == Contents().vals[name]
      ensures name !in notes.vals ==> n.Value() == Placeholder
    {
      if name in notes.vals {
        n := notes.vals[name];
      } else {
        n := new Note("", "");
      }
    }

    /** `notes()`: the stored names, each once, in first-insertion order. */
    function NoteNames(): (r: seq<string>)
      reads this`notes, this`invNotes
      requires Valid()
      ensures Distinct(r)
      ensures forall k :: k in r <==> k in notes.vals
    {
      ValidMeans(notes);
      notes.keys
    }

    /** `_auto_save`: write the current notes to the cache file. */
    method AutoSave()
      modifies this`snapshot
      ensures snapshot == Some(Contents())
      ensures Contents() == old(Contents())
    {
      snapshot := Some(Contents());
    }

    /** `add`: store a new note under `name`, map `text` to `name` in the
        inverse index, save. An existing name keeps its place; an existing
        text now names `name`; nothing is removed from the inverse index. */
    method Add(name: string, text: string) returns (ok: bool)
      requires Valid()
      modifies this
      ensures Valid() && ok
      ensures name in notes.vals && notes == old(notes).Put(name, notes.vals[name])
      ensures Contents() == old(Contents()).Put(name, NoteValue(name, text))
      ensures invNotes == old(invNotes).Put(text, name)
      ensures snapshot == Some(Contents())
      ensures cacheDirExists == old(cacheDirExists)
      ensures old(Indexed()) ==> Indexed()
      ensures fresh(notes.vals[name])
    {
      var n := Store(name, text);
      AutoSave();
      ok := true;
    }

    /** The two dictionary updates of `add`. */
    method Store(name: string, text: string) returns (n: Note)
      requires Valid()
      modifies this`notes, this`invNotes
      ensures Valid() && fresh(n)
      ensures notes == old(notes).Put(name, n)
      ensures Contents() == old(Contents()).Put(name, NoteValue(name, text))
      ensures invNotes == old(invNotes).Put(text, name)
      ensures old(Indexed()) ==> Indexed()
    {
      ghost var before := Contents();
      n := new Note(name, text);
      assert ViewOf(notes) == before;
      UnaliasedPut(notes, name, n);
      ViewOfPut(notes, name, n);
      if IndexedBy(before, invNotes) {
        IndexedByPut(before, invNotes, name, text);
      }
      PutValid(notes, name, n);
      PutValid(invNotes, text, name);
      notes, invNotes := notes.Put(name, n), invNotes.Put(text, name);
    }

    /** `__setitem__`: replace the contents of the note stored under `name`
        and save. The inverse index is left as it was. A name that is not
        stored raises `KeyError` before anything changes; `found` is false
        exactly then. */
    method SetItem(name: string, newContents: string) returns (found: bool)
      requires Valid()
      modifies this`snapshot, if name in notes.vals then {notes.vals[name]} else {}
      ensures Valid()
      ensures found == (name in notes.vals)
      ensures notes == old(notes) && invNotes == old(invNotes)
      ensures found ==> Contents() == old(Contents()).Put(name, old(Contents().vals[name]).(text := newContents))
      ensures found ==> snapshot == Some(Contents())
      ensures !found ==> Contents() == old(Contents()) && snapshot == old(snapshot)
    {
      if name !in notes.vals {
        return false;
      }
      Replace(name, newContents);
      AutoSave();
      found := true;
    }

    /** The note update of `__setitem__`. */
    method Replace(name: string, newContents: string)
      requires Valid() && name in notes.vals
      modifies notes.vals[name]
      ensures Contents() == old(Contents()).Put(name, old(Contents().vals[name]).(text := newContents))
    {
      ghost var before := Contents();
      notes.vals[name].Update(newContents);
      assert Contents().vals == before.Put(name, before.vals[name].(text := newContents)).vals;
    }

    /** `find`: the names of the indexed texts whose bag of words holds `term`,
        in the inverse index's order. */
    method Find(term: string) returns (results: seq<string>)
      requires Valid()
      ensures results == Search(invNotes, term)
    {
      ValidMeans(invNotes);
      ghost var hits := Hits(invNotes, term);
      results := [];
      var texts := invNotes.keys;
      var i := 0;
      while i < |texts|
        invariant 0 <= i <= |texts|
        invariant results == Select(texts[..i], invNotes.vals, hits)
      {
        var text := texts[i];
        var bow := Bow(text);
        if term in bow {
          results := results + [invNotes.vals[text]];
        }
        assert texts[..i + 1][..i] == texts[..i];
        i := i + 1;
      }
      assert texts[..i] == texts;
    }
  }
}
