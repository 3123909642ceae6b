/** The behaviour the unit tests and the doctests of the note store describe,
    as facts about the model: a fresh notebook, adding and listing notes,
    searching by term, and what search reports once contents change. */
module Scenarios {
  import opened Dicts
  import opened Tokens
  import opened Notes

  // ---------------------------------------------------------------------
  // Bags of words of the texts the tests store

  lemma TodayHasFriday(text: string)
    requires text == "Today is Friday."
    ensures "friday" in Bow(text)
  {
    WordInBow(text, 9, "friday");
  }

  lemma TodayHasNoX(text: string)
    requires text == "Today is Friday."
    ensures 'x' !in text && 'X' !in text
  {
  }

  lemma TodayLacksExam(text: string)
    requires text == "Today is Friday."
    ensures "exam" !in Bow(text)
  {
    TodayHasNoX(text);
    AbsentLetterNotInBow(text, "exam", 1, 'X');
  }

  lemma ExamNoteHasExam(text: string)
    requires text == "I passed my exam!"
    ensures "exam" in Bow(text)
  {
    WordInBow(text, 12, "exam");
  }

  lemma ExamNoteHasNoF(text: string)
    requires text == "I passed my exam!"
    ensures 'f' !in text && 'F' !in text
  {
  }

  lemma ExamNoteLacksFriday(text: string)
    requires text == "I passed my exam!"
    ensures "friday" !in Bow(text)
  {
    ExamNoteHasNoF(text);
    AbsentLetterNotInBow(text, "friday", 0, 'F');
  }

  lemma WorkNoteHasFriday(text: string)
    requires text == "It's Friday, but I have work to do."
    ensures "friday" in Bow(text)
  {
    WordInBow(text, 5, "friday");
  }

  lemma WorkNoteHasNoX(text: string)
    requires text == "It's Friday, but I have work to do."
    ensures 'x' !in text && 'X' !in text
  {
  }

  lemma WorkNoteLacksExam(text: string)
    requires text == "It's Friday, but I have work to do."
    ensures "exam" !in Bow(text)
  {
    WorkNoteHasNoX(text);
    AbsentLetterNotInBow(text, "exam", 1, 'X');
  }

  lemma RainyHasRainy(text: string)
    requires text == "It's a rainy day."
    ensures "rainy" in Bow(text)
  {
    WordInBow(text, 7, "rainy");
  }

  lemma RainyHasNoU(text: string)
    requires text == "It's a rainy day."
    ensures 'u' !in text && 'U' !in text
  {
  }

  lemma RainyLacksSunny(text: string)
    requires text == "It's a rainy day."
    ensures "sunny" !in Bow(text)
  {
    RainyHasNoU(text);
    AbsentLetterNotInBow(text, "sunny", 1, 'U');
  }

  lemma SunnyHasSunny(text: string)
    requires text == "It's a sunny day."
    ensures "sunny" in Bow(text)
  {
    WordInBow(text, 7, "sunny");
  }

  lemma SunnyHasNoR(text: string)
    requires text == "It's a sunny day."
    ensures 'r' !in text && 'R' !in text
  {
  }

  lemma SunnyLacksRainy(text: string)
    requires text == "It's a sunny day."
    ensures "rainy" !in Bow(text)
  {
    SunnyHasNoR(text);
    AbsentLetterNotInBow(text, "rainy", 0, 'R');
  }

  // ---------------------------------------------------------------------
  // Notes

  /** A note keeps its name and contents, and an update replaces the contents
      only. */
  method NoteLifecycle() returns (name: string, text: string, name': string, text': string)
    ensures name == "nlp" && text == "system"
    ensures name' == "nlp" && text' == "statistics"
  {
    var note := new Note("nlp", "system");
    name, text := note.Name(), note.Text();
    note.Update("statistics");
    name', text' := note.Name(), note.Text();
  }

  // ---------------------------------------------------------------------
  // Search over an index of a few texts

  lemma SearchOfOne(t: string, n: string, term: string)
    ensures Search(Empty().Put(t, n), term) == if term in Bow(t) then [n] else []
  {
    SearchEmpty(term);
    SearchPutNew(Empty(), t, n, term);
  }

  lemma SearchOfTwo(t1: string, n1: string, t2: string, n2: string, term: string)
    requires t1 != t2
    ensures Search(Empty().Put(t1, n1).Put(t2, n2), term) ==
      (if term in Bow(t1) then [n1] else []) + (if term in Bow(t2) then [n2] else [])
  {
    PutValid(Empty(), t1, n1);
    SearchOfOne(t1, n1, term);
    SearchPutNew(Empty().Put(t1, n1), t2, n2, term);
  }

  lemma SearchOfThree(t1: string, n1: string, t2: string, n2: string, t3: string, n3: string, term: string)
    requires t1 != t2 && t1 != t3 && t2 != t3
    ensures Empty().Put(t1, n1).Put(t2, n2).Put(t3, n3).Valid()
    ensures Search(Empty().Put(t1, n1).Put(t2, n2).Put(t3, n3), term) ==
      (if term in Bow(t1) then [n1] else []) + (if term in Bow(t2) then [n2] else []) +
      (if term in Bow(t3) then [n3] else [])
  {
    var two := Empty().Put(t1, n1).Put(t2, n2);
    PutValid(Empty(), t1, n1);
    PutValid(Empty().Put(t1, n1), t2, n2);
    SearchOfTwo(t1, n1, t2, n2, term);
    SearchPutNew(two, t3, n3, term);
  }

  // ---------------------------------------------------------------------
  // Notebooks started without a cache file

  /** A notebook started without a cache file has no notes, an empty index,
      and leaves the cache directory in place. */
  method FreshNotebook(dirExists: bool) returns (nb: Notebook)
    ensures nb.Valid() && nb.NoteNames() == [] && nb.invNotes == Empty()
    ensures nb.cacheDirExists && fresh(nb)
  {
    nb := new Notebook(dirExists, None);
    InverseIndexEmpty();
  }

  /** A fresh notebook after one add. */
  method WithOne(dirExists: bool, name: string, text: string) returns (nb: Notebook)
    ensures nb.Valid() && nb.NoteNames() == [name] && nb.invNotes == Empty().Put(text, name)
    ensures nb.Contents().vals == map[name := NoteValue(name, text)]
    ensures fresh(nb) && name in nb.notes.vals && fresh(nb.notes.vals[name])
  {
    nb := FreshNotebook(dirExists);
    var _ := nb.Add(name, text);
  }

  /** A notebook opened on the file an add just wrote holds the same notes. */
  method RestartKeepsNotes(name: string, text: string) returns (nb: Notebook, nb2: Notebook)
    ensures nb.Contents().vals == map[name := NoteValue(name, text)]
    ensures nb2.Valid() && nb2.Contents() == nb.Contents()
  {
    nb := FreshNotebook(true);
    var _ := nb.Add(name, text);
    var file := Dict([name], map[name := NoteValue(name, text)]);
    assert nb.snapshot == Some(file);
    nb2 := new Notebook(true, Some(file));
  }

  /** A fresh notebook after two adds. */
  method WithTwo(dirExists: bool, n1: string, t1: string, n2: string, t2: string) returns (nb: Notebook)
    ensures nb.Valid() && nb.NoteNames() == (if n1 == n2 then [n1] else [n1, n2])
    ensures nb.invNotes == Empty().Put(t1, n1).Put(t2, n2)
    ensures fresh(nb)
  {
    nb := WithOne(dirExists, n1, t1);
    var _ := nb.Add(n2, t2);
  }

  /** A fresh notebook after adds of the names "1", "2" and "3". */
  method WithThree(dirExists: bool, t1: string, t2: string, t3: string) returns (nb: Notebook)
    ensures nb.Valid()
    ensures nb.invNotes == Empty().Put(t1, "1").Put(t2, "2").Put(t3, "3")
  {
    nb := WithTwo(dirExists, "1", t1, "2", t2);
    var _ := nb.Add("3", t3);
  }

  /** Each add of a new name lengthens the list of names by one. */
  method AddTwo(dirExists: bool) returns (before: nat, once: nat, twice: nat)
    ensures before == 0 && once == 1 && twice == 2
  {
    var nb := FreshNotebook(dirExists);
    before := |nb.NoteNames()|;
    var _ := nb.Add("Wed", "No class today.");
    once := |nb.NoteNames()|;
    var _ := nb.Add("Fri", "Tomorrow is weekend.");
    twice := |nb.NoteNames()|;
  }

  /** The names are listed in the order they were added. */
  method ListNames(dirExists: bool) returns (empty: seq<string>, names: seq<string>)
    ensures empty == [] && names == ["1", "2"]
  {
    var nb := FreshNotebook(dirExists);
    empty := nb.NoteNames();
    var _ := nb.Add("1", "first");
    var _ := nb.Add("2", "second");
    names := nb.NoteNames();
  }

  /** The index the three notes of the search test build: "friday" names the
      first and the third note, "exam" the second. */
  lemma ThreeIndexFriday(t1: string, t2: string, t3: string)
    requires t1 == "Today is Friday." && t2 == "I passed my exam!" && t3 == "It's Friday, but I have work to do."
    ensures Empty().Put(t1, "1").Put(t2, "2").Put(t3, "3").Valid()
    ensures Search(Empty().Put(t1, "1").Put(t2, "2").Put(t3, "3"), "friday") == ["1", "3"]
  {
    TodayHasFriday(t1);
    ExamNoteLacksFriday(t2);
    WorkNoteHasFriday(t3);
    assert |t1| == 16 && |t2| == 17 && |t3| == 35;
    SearchOfThree(t1, "1", t2, "2", t3, "3", "friday");
  }

  lemma ThreeIndexExam(t1: string, t2: string, t3: string)
    requires t1 == "Today is Friday." && t2 == "I passed my exam!" && t3 == "It's Friday, but I have work to do."
    ensures Empty().Put(t1, "1").Put(t2, "2").Put(t3, "3").Valid()
    ensures Search(Empty().Put(t1, "1").Put(t2, "2").Put(t3, "3"), "exam") == ["2"]
  {
    TodayLacksExam(t1);
    ExamNoteHasExam(t2);
    WorkNoteLacksExam(t3);
    assert |t1| == 16 && |t2| == 17 && |t3| == 35;
    SearchOfThree(t1, "1", t2, "2", t3, "3", "exam");
  }

  /** Search reports the notes in the order their texts were indexed, matches
      whole tokens of the lowered text, and never matches a term with an
      upper-case letter. */
  method SearchThree(dirExists: bool) returns (friday: seq<string>, exam: seq<string>, monday: seq<string>)
    ensures friday == ["1", "3"] && exam == ["2"] && monday == []
  {
    var t1, t2, t3 := "Today is Friday.", "I passed my exam!", "It's Friday, but I have work to do.";
    var nb := WithThree(dirExists, t1, t2, t3);
    friday := nb.Find("friday");
    exam := nb.Find("exam");
    monday := nb.Find("Monday");
    ThreeIndexFriday(t1, t2, t3);
    ThreeIndexExam(t1, t2, t3);
    SearchUpperTerm(nb.invNotes, "Monday", 0);
  }

  /** A note holding the term is found; a term it lacks finds nothing. */
  method SearchOne(dirExists: bool) returns (rainy: seq<string>, sunny: seq<string>)
    ensures rainy == ["Wed"] && sunny == []
  {
    var t := "It's a rainy day.";
    var nb := WithOne(dirExists, "Wed", t);
    rainy := nb.Find("rainy");
    sunny := nb.Find("sunny");
    RainyHasRainy(t);
    RainyLacksSunny(t);
    SearchOfOne(t, "Wed", "rainy");
    SearchOfOne(t, "Wed", "sunny");
  }

  // ---------------------------------------------------------------------
  // What search reports once the index and the notes part ways

  /** Replacing a note's contents leaves its old text indexed and its new text
      unindexed: search still finds the note by the old term and not by the
      new one. */
  method UpdateIsNotIndexed(dirExists: bool) returns (found: bool, text: string, rainy: seq<string>, sunny: seq<string>)
    ensures found && text == "It's a sunny day."
    ensures rainy == ["Wed"] && sunny == []
  {
    var t, t' := "It's a rainy day.", "It's a sunny day.";
    var nb := WithOne(dirExists, "Wed", t);
    found := nb.SetItem("Wed", t');
    var note := nb.Get("Wed");
    text := note.Text();
    rainy := nb.Find("rainy");
    sunny := nb.Find("sunny");
    RainyHasRainy(t);
    RainyLacksSunny(t);
    SearchOfOne(t, "Wed", "rainy");
    SearchOfOne(t, "Wed", "sunny");
  }

  /** The index after adding a rainy and then a sunny text under one name
      keeps both texts, each naming that name. */
  lemma RainyThenSunny(t: string, t': string, term: string)
    requires t == "It's a rainy day." && t' == "It's a sunny day."
    requires term == "rainy" || term == "sunny"
    ensures Empty().Put(t, "Wed").Put(t', "Wed").Valid()
    ensures Search(Empty().Put(t, "Wed").Put(t', "Wed"), term) == ["Wed"]
  {
    assert t[7] != t'[7];
    PutValid(Empty(), t, "Wed");
    PutValid(Empty().Put(t, "Wed"), t', "Wed");
    if term == "rainy" {
      RainyHasRainy(t);
      SunnyLacksRainy(t');
    } else {
      RainyLacksSunny(t);
      SunnyHasSunny(t');
    }
    SearchOfTwo(t, "Wed", t', "Wed", term);
  }

  /** Adding a note under a stored name replaces the note but keeps the old
      text indexed: search finds the name by both the old and the new term. */
  method ReAddKeepsOldText(dirExists: bool) returns (names: seq<string>, rainy: seq<string>, sunny: seq<string>)
    ensures names == ["Wed"]
    ensures rainy == ["Wed"] && sunny == ["Wed"]
  {
    var t, t' := "It's a rainy day.", "It's a sunny day.";
    var nb := WithTwo(dirExists, "Wed", t, "Wed", t');
    names := nb.NoteNames();
    rainy := nb.Find("rainy");
    sunny := nb.Find("sunny");
    RainyThenSunny(t, t', "rainy");
    RainyThenSunny(t, t', "sunny");
  }

  /** Two notes with the same text share one index entry, which names the
      later note: search reports that note only. */
  method SharedTextNamesLast(dirExists: bool) returns (names: seq<string>, rainy: seq<string>)
    ensures names == ["Mon", "Tue"]
    ensures rainy == ["Tue"]
  {
    var t := "It's a rainy day.";
    var nb := WithTwo(dirExists, "Mon", t, "Tue", t);
    names := nb.NoteNames();
    rainy := nb.Find("rainy");
    RainyHasRainy(t);
    SearchPutSingle(t, "Mon", "Tue", "rainy");
  }
}
