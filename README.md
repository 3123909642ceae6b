# Note store

A Dafny model of the note store in `notes.py`: a `Note` is a named piece of
text whose contents can be replaced, and a `Notebook` holds notes by name. It
keeps two insertion-ordered dictionaries:

- the forward map from name to `Note`;
- the inverse index from text to name. It is built from the loaded notes when
  the notebook is created, and every `add` extends it.

The notebook offers:

- lookup with an empty placeholder note;
- in-place replacement of contents;
- listing of names;
- `add`;
- whole-token search over the inverse index.

After every change it saves the forward map.

The project has four modules.

- `Dicts` (`dicts.dfy`) models Python's insertion-ordered `dict`. A dictionary is a sequence of keys in first-insertion order beside a map. It provides:
  - assignment, which keeps an existing key's place;
  - the dictionary comprehension that inverts a dictionary;
  - selection of values in key order.
- `Tokens` (`tokens.dfy`) models how `find` turns a text into its bag of words:
  - `str.lower` over ASCII;
  - `RegexpTokenizer(r'\w+').tokenize`, which yields the maximal runs of word characters, left to right.

  Lemmas characterise the tokens as exactly the maximal runs of the lowered text.
- `Notes` (`notes.dfy`) contains:
  - the `Note` class;
  - the `Notebook` class, whose fields are the forward map (`notes`), the inverse index (`invNotes`), a ghost `snapshot` standing for the cache file, and a ghost `cacheDirExists`;
  - the specification functions the methods are proved against: `Contents` (name to current note value), `InverseIndex` (the comprehension of `__init__`) and `Search` (what `find` reports);
  - the lemmas about those functions.
- `Scenarios` (`scenarios.dfy`) contains:
  - the unit tests and doctests, as methods whose postconditions state the values the tests expect;
  - the inverse-index drift: `__setitem__` never updates the index, re-adding a name leaves the old text indexed, and two notes with one text share a single entry that names the later note.

The file system is a parameter: the constructor takes whether the cache directory exists and the contents of the cache file, if there is one.

Where the docstrings and the code disagree, the model follows the code:

- **`find` does not always report exactly the matching notes.** The docstring of `find` (notes.py:144) promises the notes that contain the term. The code searches the inverse index instead, and the index drifts from the notes:
  - after `__setitem__` it misses the note under its new text and still reports it under its old text (`UpdateIsNotIndexed`);
  - after re-adding a name with new text it still reports the name for the old text, which the note no longer has (`ReAddKeepsOldText`);
  - when two notes share a text it misses the earlier of them (`SharedTextNamesLast`).

  `SearchIndexExact` proves that the promise does hold for an index built from notes with pairwise distinct texts.
- **`find` returns names.** The same docstring says it returns `Note` objects; the code returns their names.

## Model

| member | source | states |
|---|---|---|
| Dicts.Dict.Put | notes.py:121-122 | assigning to a key maps it to the new value and leaves every other key's value alone. A key already present keeps its position; a new key is appended at the end |
| Dicts.PutValid | notes.py:121-122 | assignment keeps the keys listed exactly once and in agreement with the map |
| Dicts.ValidMeans | notes.py:111 | in a well-formed dictionary the listed keys are distinct and are exactly the mapped keys |
| Dicts.ValidFrom | notes.py:72-76 | conversely, distinct listed keys that are exactly the mapped keys make a well-formed dictionary, as every unpickled `dict` is |
| Dicts.ListsFrom | notes.py:72-76 | the induction behind `ValidFrom`: distinct keys list exactly the set of their elements |
| Dicts.NextKeyIsNew | notes.py:55 | while a dictionary is filled in the order of another's distinct keys, the next key is not present yet |
| Dicts.SameKeys | notes.py:55 | two well-formed dictionaries that list the same keys map the same keys |
| Dicts.Empty | notes.py:78 | `{}` is well-formed and has no keys |
| Dicts.InvertOf | notes.py:56 | definition of the inverting comprehension over a list of keys, each value assigned its key in turn; its properties are `InvertOfValid`, `InvertOfHasValue`, `InvertOfLastWins` and `InvertOfGrows` |
| Dicts.Invert | notes.py:56 | definition of the inverting comprehension over a whole dictionary; its properties are `InvertCovers` and `InvertExact` |
| Dicts.InvertOfValid | notes.py:56 | the inverting comprehension yields a well-formed dictionary |
| Dicts.InvertOfHasValue | notes.py:56 | a value is a key of the inversion exactly when some key maps to it |
| Dicts.InvertOfLastWins | notes.py:56 | a value names the last key that maps to it |
| Dicts.InvertOfGrows | notes.py:56 | inverting more keys only appends to the inverse's key list, so a value stays where the first key that has it put it |
| Dicts.InvertCovers | notes.py:56 | every value of the dictionary is a key of its inversion |
| Dicts.InvertExact | notes.py:56 | when no two keys share a value, the inversion undoes the dictionary exactly, both ways |
| Dicts.Select | notes.py:150-153 | definition of the loop of `find`: the values of the selected keys, in key order; its properties are `SelectHas`, `SelectNone` and `SelectFrame` |
| Dicts.SelectHas | notes.py:150-153 | a value is selected exactly when some selected key maps to it |
| Dicts.SelectNone | notes.py:150-154 | the selection is empty exactly when no listed key is selected |
| Dicts.SelectFrame | notes.py:150-153 | the selection depends only on the listed keys' values and on whether each is selected |
| Tokens.IsWordChar | notes.py:148 | definition of `\w` over ASCII: letters, digits and `_`; `LowerChar` and `BowTokensAreLowerWords` state how it meets lower-casing and tokens |
| Tokens.TokensFrom | notes.py:148-151 | definition of the tokenizer from a position on: skip non-word characters, then take a maximal run; its property is `TokensFromRuns` |
| Tokens.Tokenize | notes.py:148-151 | definition of `tokenize` for `\w+`: the tokens from position 0; `TokensFromRuns` and `BowIsRuns` state what it yields |
| Tokens.Bow | notes.py:151 | definition of the bag of words, the set of tokens of the lowered text; its properties are `BowIsRuns`, `BowTokensAreLowerWords`, `UpperTermNeverInBow`, `RunInBow`, `WordInBow`, `AbsentCharNotInBow` and `AbsentLetterNotInBow` |
| Tokens.LowerChar | notes.py:151 | ASCII lower-casing never yields an upper-case letter. It keeps whether the character is a word character, and it leaves non-upper-case characters unchanged |
| Tokens.Lower | notes.py:151 | `str.lower` keeps the length and lowers each character in place |
| Tokens.RunEnd | notes.py:148-151 | the run of word characters starting at a position ends at the first non-word character or at the end of the text |
| Tokens.TokensFromRuns | notes.py:148-151 | from a boundary on, the tokens are exactly the maximal runs of word characters that start there |
| Tokens.BowIsRuns | notes.py:151-152 | a term is in the bag of words of a text exactly when it is a maximal run of word characters of the lowered text |
| Tokens.BowTokensAreLowerWords | notes.py:151 | every token is non-empty and consists of lower-case word characters |
| Tokens.UpperTermNeverInBow | notes.py:151-152 | a term that contains an upper-case letter is in no bag of words |
| Tokens.RunInBow | notes.py:151 | every maximal run of the lowered text is a token |
| Tokens.WordInBow | notes.py:151 | a term of word characters is a token when some part of the text lowers to it and no word character borders that part |
| Tokens.AbsentCharNotInBow | notes.py:151-152 | a term with a character that no character of the text lowers to is not a token |
| Tokens.AbsentLetterNotInBow | notes.py:151-152 | a term with a letter that occurs in the text in neither case is not a token |
| Notes.Note.constructor | notes.py:35-45 | a new note reports the name and the text it was built with |
| Notes.Note.Text | notes.py:39-41 | definition of `text()`: the note's current contents; `Note.constructor` and `Note.Update` state what it returns |
| Notes.Note.Name | notes.py:43-45 | definition of `name()`: the note's name, a `const`, so `update` cannot change it; `Note.constructor` states what it returns |
| Notes.Note.Update | notes.py:47-49 | after `update`, `text()` is the new string. The name is read-only, so it cannot change |
| Notes.UnaliasedPut | notes.py:121 | storing a note that no other name holds keeps names and Note objects one to one |
| Notes.ViewOf | notes.py:55 | the current values of a dictionary's notes form a well-formed dictionary when the notes do |
| Notes.ViewOfPut | notes.py:121 | storing a note under a name changes the notebook's contents at that name only |
| Notes.Loaded | notes.py:72-83 | definition of what `_load_cache_notes` yields: the stored snapshot when the directory and the file exist, and no notes otherwise; `Notebook.LoadCacheNotes`, `Notebook.constructor` and `RestartKeepsNotes` state it of the notebook |
| Notes.ViewOfStored | notes.py:72-76 | notes that hold the values of a stored snapshot under its names have exactly that snapshot as their contents |
| Notes.Texts | notes.py:56 | each name maps to its note's text, with the same keys in the same order, and well-formed notes give a well-formed projection, which `InverseIndex` needs for the comprehension |
| Notes.InverseIndex | notes.py:56 | the inverse index built from well-formed notes is well-formed |
| Notes.InverseIndexHas | notes.py:56 | a text is indexed exactly when some note has it |
| Notes.InverseIndexNamesLast | notes.py:56 | an indexed text names the last note, in insertion order, that has that text |
| Notes.InverseIndexExact | notes.py:56 | when no two notes share a text, the index maps each note's text to that note's name, and holds no other text |
| Notes.InverseIndexCovers | notes.py:56 | the index built at construction holds every note's text |
| Notes.IndexedByPut | notes.py:121-122 | `add` keeps every note's text in the index |
| Notes.InverseIndexEmpty | notes.py:56 | no notes give an empty index |
| Notes.Search | notes.py:150-155 | definition of what `find` reports: the selection, in index order, of the texts whose bag of words holds the term; its properties are `SearchHas`, `SearchNone`, `SearchUpperTerm`, `SearchPutNew`, `SearchPutOld` and `SearchIndexExact`, and `Notebook.Find` computes it |
| Notes.SearchHas | notes.py:147-155 | a name is reported exactly when some indexed text whose bag of words holds the term maps to it |
| Notes.SearchNone | notes.py:147-155 | `find` reports nothing exactly when no indexed text holds the term as a token |
| Notes.SearchUpperTerm | notes.py:151-152 | a term with an upper-case letter finds nothing |
| Notes.SearchPutNew | notes.py:150-153 | indexing a new text appends its name to the results exactly when the text holds the term, and leaves the earlier results unchanged |
| Notes.SearchPutOld | notes.py:150-153 | re-indexing a text that is already there keeps the texts and their order, and search reports the new name where it reported the old one |
| Notes.SearchPutSingle | notes.py:150-153 | for an index holding only that text, a text indexed twice is reported once, under the later name |
| Notes.SearchIndexExact | notes.py:147-155 | over an index built from notes with pairwise distinct texts, a name is reported exactly when that note's bag of words holds the term |
| Notes.Notebook.constructor | notes.py:54-56 | a new notebook holds the loaded notes, and its index is exactly the inverse of them, covering every note. It keeps the cache file as the snapshot it found, and afterwards the cache directory exists |
| Notes.Notebook.LoadCacheNotes | notes.py:66-83 | the loaded notes are fresh objects whose values are exactly the stored snapshot when the directory and the file exist, and no notes otherwise |
| Notes.Notebook.Get | notes.py:62-64 | a stored name yields the stored Note object itself. A missing name yields a fresh note with empty name and text. The state is unchanged |
| Notes.Notebook.NoteNames | notes.py:99-111 | the listed names are distinct and are exactly the stored names |
| Notes.Notebook.AutoSave | notes.py:85-97 | the snapshot becomes the current contents, and the contents do not change |
| Notes.Notebook.Add | notes.py:113-125 | `add` returns true. The forward map becomes the old one with a fresh note assigned to the name, so the name list gains the name at the end only when it is new. That note has the given name and text, the text now names the name in the index, and nothing else changes. The snapshot equals the new contents, and an index that covered every note still does |
| Notes.Notebook.Store | notes.py:121-122 | the two dictionary updates of `add`: a fresh note stored under the name, and the text mapped to the name |
| Notes.Notebook.SetItem | notes.py:58-60 | a stored name has only its note's text replaced. The maps, the key order and the index are unchanged, and the snapshot is saved. A missing name is the `KeyError` path, which changes nothing |
| Notes.Notebook.Replace | notes.py:59 | the stored note under the name, and no other, gets the new text |
| Notes.Notebook.Find | notes.py:127-155 | the loop returns the names of the indexed texts whose bag of words holds the term, in index order, and changes nothing |
| Scenarios.NoteLifecycle | test/test_nb.py:13-25 | `Note('nlp', 'system')` reports that name and text. After `update('statistics')` it reports the same name and the new text |
| Scenarios.FreshNotebook | test/test_nb.py:39-46 | a notebook without a cache file has no names and an empty index, and the cache directory exists |
| Scenarios.WithOne | notes.py:117-119 | after one `add` to a fresh notebook, the name list, the contents and the index hold that one note |
| Scenarios.RestartKeepsNotes | notes.py:95-97 | a notebook opened on the cache file that an `add` just wrote holds the same contents as the notebook that wrote it |
| Scenarios.WithTwo | notes.py:121-122 | after two adds, a repeated name is listed once and both texts are indexed |
| Scenarios.WithThree | test/test_nb.py:70-72 | three adds index the three texts in order |
| Scenarios.AddTwo | test/test_nb.py:48-64 | the name count goes from 0 to 1 to 2 over two adds |
| Scenarios.ListNames | test/test_nb.py:86-97 | the names are `[]` at first and then `['1', '2']` |
| Scenarios.TodayHasFriday | test/test_nb.py:70-74 | "friday" is a token of 'Today is Friday.' |
| Scenarios.TodayLacksExam | test/test_nb.py:70-75 | "exam" is not a token of 'Today is Friday.' |
| Scenarios.ExamNoteHasExam | test/test_nb.py:71-75 | "exam" is a token of 'I passed my exam!' |
| Scenarios.ExamNoteLacksFriday | test/test_nb.py:71-74 | "friday" is not a token of 'I passed my exam!' |
| Scenarios.WorkNoteHasFriday | test/test_nb.py:72-74 | "friday" is a token of "It's Friday, but I have work to do." |
| Scenarios.WorkNoteLacksExam | test/test_nb.py:72-75 | "exam" is not a token of "It's Friday, but I have work to do." |
| Scenarios.RainyHasRainy | test/test_nb.py:82-83 | "rainy" is a token of "It's a rainy day." |
| Scenarios.RainyLacksSunny | test/test_nb.py:82-84 | "sunny" is not a token of "It's a rainy day." |
| Scenarios.SunnyHasSunny | notes.py:151-152 | "sunny" is a token of "It's a sunny day." |
| Scenarios.SunnyLacksRainy | notes.py:151-152 | "rainy" is not a token of "It's a sunny day." |
| Scenarios.SearchOfOne | notes.py:147-155 | over a one-text index, the name is reported exactly when its text holds the term |
| Scenarios.SearchOfTwo | notes.py:147-155 | over a two-text index, the names are reported in index order, each exactly when its text holds the term |
| Scenarios.SearchOfThree | notes.py:147-155 | over a three-text index, the names are reported in index order, each exactly when its text holds the term |
| Scenarios.ThreeIndexFriday | test/test_nb.py:70-74 | "friday" finds `['1', '3']` over the three texts of the search test |
| Scenarios.ThreeIndexExam | test/test_nb.py:70-75 | "exam" finds `['2']` over the three texts of the search test |
| Scenarios.SearchThree | test/test_nb.py:66-76 | `find` gives `['1', '3']` for 'friday', `['2']` for 'exam' and `[]` for 'Monday' |
| Scenarios.SearchOne | test/test_nb.py:78-84 | `find` gives `['Wed']` for 'rainy' and `[]` for 'sunny' |
| Scenarios.UpdateIsNotIndexed | notes.py:58-60 | after `nb['Wed'] = "It's a sunny day."` the note's text is the new one, yet `find('rainy')` still gives `['Wed']` and `find('sunny')` gives `[]` |
| Scenarios.RainyThenSunny | notes.py:122 | an index holding the rainy text and then the sunny text, both under 'Wed', reports `['Wed']` for either term |
| Scenarios.ReAddKeepsOldText | notes.py:121-122 | re-adding 'Wed' with new text keeps one name, and `find` reports 'Wed' for both the old term and the new one |
| Scenarios.SharedTextNamesLast | notes.py:122 | two notes with one text are both listed, but `find` reports only the later one |

## Left out

- Pickle and file I/O: the cache file's contents are a constructor parameter and `_auto_save` assigns a ghost snapshot. The on-disk format is not modelled. Neither is a file that exists but cannot be read or unpickled; the source lets that exception propagate. Nor is a write in `_auto_save` (notes.py:95) that fails: in the source the exception propagates out of `add` and `__setitem__` after the notes have changed, while the model's `AutoSave` always succeeds.
- `Path.exists` and `CACHE_DIR.mkdir`: whether the directory exists is a parameter, and creating it is the ghost flag `cacheDirExists`. A failing `mkdir` is not modelled.
- Notes.Notebook.LoadCacheNotes: it builds fresh `Note` objects from the stored name and text, as unpickling does. It requires the stored dictionary to be well-formed, which every pickled `dict` is.
- Unicode: `\w` is read over ASCII letters, digits and `_`, and `str.lower` lowers ASCII letters only, because Dafny has no Unicode character classes or case mapping.
- The internals of nltk's `RegexpTokenizer`: the tokenizer is modelled by what it yields for `\w+`, the maximal runs of word characters.
- `AutoSave`: it does not model the `assert self._notes is not None` at notes.py:93, because the forward map is a value and cannot be `None`.
- Notes.Notebook.SetItem: `KeyError` is modelled as the result `false` with nothing changed. Exceptions are not modelled.
- The doctest at notes.py:103-110 shows `notes()` as a set. The code returns a list in insertion order, and so does the model.
- `clear()` is called by the front-ends but is defined nowhere in `notes.py`.
- `api.py`, `app.py` and `stream.py` are not part of this model: they are web and UI front-ends that only call `Notebook`.
- The test set-up that deletes the cache files (test/test_nb.py:31-37) is file-system work. The scenarios start from a notebook without a cache file instead.
- Object identity when saving: the snapshot holds note values, not `Note` objects, as a pickle holds copies.
