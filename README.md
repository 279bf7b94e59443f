# SlangDecoder core in Dafny

This is a model of the logic behind the SlangDecoder Streamlit app (`streamlit_app.py`). Three parts are modelled:

- **The dictionary loader's cleaning steps** (`load_data_and_model`, lines 46-74). A headerless table of CSV cells becomes the slang-to-meaning dictionary. Only the first two columns are kept. A first row equal to `("?", "I have a question")` is dropped. Repeated raw slangs are dropped, keeping the first. Both columns are lower-cased and stripped. The slang `"it"` is removed. The dictionary is then built row by row, so a later row overwrites an earlier one with the same cleaned slang.
- **The normalizer** (`normalize_slang`, lines 83-96). The sentence is split on whitespace. Each token is looked up by its lower-cased form with ASCII punctuation stripped from both ends. A hit is replaced by its meaning and a miss is kept verbatim. The results are joined with single spaces.
- **The session dictionary** (lines 109-114, 139-141, 216-228, 244). It is seeded once from the loader, and the app goes on only when the result is a non-empty dictionary. The normalizer tab reads it. The add form extends it in place after refusing empty fields and slangs that already exist.

Modules:

- `Wrappers`: the `Option` type.
- `Seqs`: element-wise mapping over a sequence, the "picked at increasing positions" relation used for duplicate removal, and the small regrouping lemmas about sequence concatenation and slicing.
- `Text`: ASCII models of Python's `str.lower`, `str.strip`, `str.strip(string.punctuation)`, `str.split()` and `" ".join`.
- `Builder`: the cleaning pipeline as pure functions. `RowByRow` is a one-pass reference definition of the same dictionary. The key, value and size properties are proved about it.
- `Normalizer`: the specification function `Normalized` and the loop method `NormalizeSlang` proved against it.
- `Session`: the `SlangStore` class, whose `entries` map is updated in place, and `StartSession`.

Behaviour that follows from the code as written:

- Duplicate rows are removed on the raw slang (streamlit_app.py:61), before the slang is lower-cased and stripped (lines 62-63). The dictionary is then built with a later row overwriting an earlier one with the same key (line 70). So rows `LOL → laughing out loud` followed by `lol → laugh out loud` both survive, and `lol` maps to `laugh out loud` (`RowByRowValue`, `ToDictLastWins`).
- The header check (line 58) compares the raw cells of the first row only, before any cleaning, with `?` and `I have a question` (capital I). A first row `? → i have a question` is kept as data, and so is a later row equal to the sentinel (`DataRowsShape`).
- The add form refuses only an empty raw field (line 217). A whitespace-only slang passes that test and is cleaned to `""`, which is then inserted as a key unless `""` is already one (`SlangStore.Add`); a whitespace-only slang cell in the dataset also cleans to `""`, and then the form answers that the slang already exists. The slang `"it"` can also be added, because its filter (lines 65-67) runs only at load time.
- The lookup key is the token stripped of punctuation (line 92), but a hit replaces the whole token (line 93). So `lol,` becomes the meaning and the comma is lost (`NormalizedWord`, `LookupKeyPadded`).

## Model

| member | source | states |
|---|---|---|
| Text.Lower | streamlit_app.py:62-63 | `str.lower()` keeps the length, maps each upper-case letter to the letter 32 code points above it and leaves every other character unchanged |
| Text.Trim | streamlit_app.py:62-63 | `strip` returns a contiguous slice of the input with only droppable characters before and after it and no droppable character at either of its ends; empty exactly when every character is droppable; it keeps lower case |
| Text.TrimPadded | streamlit_app.py:62-63 | stripping droppable padding from both sides of a trimmed text gives back exactly that text |
| Text.Clean | streamlit_app.py:62-63 | `.lower().strip()` is the slice of the lower-cased input left after removing the surrounding whitespace; the result is clean, and empty exactly for all-whitespace input |
| Text.CleanPadded | streamlit_app.py:62-63 | cleaning a whitespace-padded text gives the lower-cased text without the padding |
| Text.CleanExample | streamlit_app.py:220-221 | `" FTW "` cleans to `"ftw"` |
| Text.CleanFixesClean | streamlit_app.py:62-63 | cleaning is the identity exactly on clean strings, so cleaning twice is cleaning once |
| Text.Split | streamlit_app.py:89 | every token of `split()` is non-empty and contains no whitespace |
| Text.SplitKeepsText | streamlit_app.py:89 | the tokens of `split()`, concatenated, are exactly the non-whitespace characters of the sentence, in order |
| Text.SplitEmpty | streamlit_app.py:89 | `split()` yields no token exactly when the sentence is all whitespace |
| Text.SplitAtBlank | streamlit_app.py:89 | any non-empty whitespace run (spaces, tabs, newlines) separates tokens: splitting two texts joined by one gives the tokens of the first followed by the tokens of the second |
| Text.SplitTwoWords | streamlit_app.py:89 | two words with a whitespace run of any kind between them are exactly two tokens |
| Text.SplitExample | streamlit_app.py:89 | `"wyd\nlol"` splits into `"wyd"` and `"lol"` |
| Text.SplitWord | streamlit_app.py:89 | a non-empty text with no whitespace splits into itself alone |
| Text.Join | streamlit_app.py:96 | `" ".join` of no words is `""`, of one word is that word unchanged; otherwise its length is the total length of the words plus one separator between each pair |
| Text.SplitJoin | streamlit_app.py:89-96 | `split()` undoes `" ".join` on whitespace-free, non-empty tokens |
| Text.JoinAppend | streamlit_app.py:96 | joining the concatenation of two non-empty lists joins each list and puts one space between the two results |
| Builder.FirstTwoColumns | streamlit_app.py:50-52 | one entry per row, holding that row's cells 0 and 1 as slang and meaning |
| Builder.DropHeaderRow | streamlit_app.py:58-59 | the result is a suffix of the rows, one row shorter exactly when the first row equals the raw header sentinel, and the whole input otherwise |
| Builder.DedupSlang | streamlit_app.py:61 | duplicate removal keeps every raw slang, leaves each slang exactly once and only keeps rows of the input |
| Builder.DedupKeepsFirsts | streamlit_app.py:61 | the kept rows are exactly the first occurrences of their slangs, in their original order |
| Builder.CleanEntries | streamlit_app.py:62-63 | cleaning both columns keeps the row count, and each output row is the cleaned input row at the same position |
| Builder.DropDenied | streamlit_app.py:65-67 | a row survives exactly when it was present and its slang is not `"it"` |
| Builder.DropDeniedOne | streamlit_app.py:65-67 | a single row is dropped exactly when its slang is `"it"` |
| Builder.DropDeniedAppend | streamlit_app.py:65-67 | the filter works row by row, so the surviving rows keep their order |
| Builder.ToDict | streamlit_app.py:70 | the keys are exactly the slangs of the rows, and every key maps to the meaning of one of its rows |
| Builder.ToDictLastWins | streamlit_app.py:70 | a key maps to the meaning of the last row with that slang |
| Builder.Pipeline | streamlit_app.py:61-70 | the dictionary's keys and values are all clean and `"it"` is not a key |
| Builder.Build | streamlit_app.py:50-74 | no dictionary exactly when the table has fewer than two columns or no row; otherwise a clean dictionary without `"it"` |
| Builder.PipelineIsRowByRow | streamlit_app.py:61-70 | the staged pipeline builds the same dictionary as the one-pass reference `RowByRow` |
| Builder.RowByRowKeys | streamlit_app.py:61-70 | the keys are the cleaned slangs of all rows except `"it"`; removing repeated raw slangs never removes a key |
| Builder.RepeatedSlangAddsNoKey | streamlit_app.py:61 | a row whose raw slang appeared earlier adds no cleaned slang |
| Builder.RowByRowValue | streamlit_app.py:61-70 | a key's value is the cleaned meaning of the last first-occurrence row that cleans to it |
| Builder.RowByRowSize | streamlit_app.py:61-70 | with no two rows cleaning to the same slang and none to `"it"`, the dictionary has one entry per row |
| Builder.DataRowsShape | streamlit_app.py:50-59 | only columns 0 and 1 are read; the first row is dropped exactly when it equals the raw header sentinel; all other rows are kept in order |
| Builder.BuildReadsTwoColumns | streamlit_app.py:50-52 | tables that agree on their first two columns build the same dictionary |
| Builder.BuildKeys | streamlit_app.py:46-74 | the loaded dictionary's keys are the cleaned slangs of the data rows, `"it"` excepted |
| Builder.BuildValue | streamlit_app.py:46-74 | the first data row with a given raw slang, if its cleaned slang is not `"it"`, gives its key its cleaned meaning unless a later first-of-its-raw-slang row cleans to the same key |
| Builder.BuildSize | streamlit_app.py:46-74 | with no clashes after cleaning and no `"it"`, the dictionary size is the data row count (header excluded) |
| Normalizer.LookupKey | streamlit_app.py:92 | the lookup key is the slice of the lower-cased token left after removing the surrounding punctuation; it is lower case and has no punctuation at either end |
| Normalizer.LookupKeyPadded | streamlit_app.py:92 | a token made of punctuation, a core without punctuation at its ends, and punctuation looks up the lower-cased core |
| Normalizer.LookupKeyExample | streamlit_app.py:92 | `"LOL!"` looks up `"lol"` |
| Normalizer.Translate | streamlit_app.py:93 | a token whose lookup key is in the dictionary becomes the key's meaning; any other token is kept verbatim |
| Normalizer.TranslateAll | streamlit_app.py:91-94 | one output per token; at each position, a hit becomes the meaning and a miss the token itself |
| Normalizer.Normalized | streamlit_app.py:83-96 | the specification of `normalize_slang`: the joined translations of the tokens; its own contract says an empty or all-whitespace sentence normalizes to `""`, and the rows below state its value on hits, misses and repeated use |
| Normalizer.TranslateAllAppend | streamlit_app.py:91-94 | translation works token by token, so translating two token lists one after the other is translating their concatenation |
| Normalizer.NormalizedAtBlank | streamlit_app.py:89-96 | a whitespace run of any kind between two phrases that have tokens becomes exactly one space in the output, each phrase normalized on its own |
| Normalizer.NormalizeSlang | streamlit_app.py:83-96 | the append loop returns the joined translations of the tokens of the sentence |
| Normalizer.NormalizedWord | streamlit_app.py:92-93 | on a hit the whole token, punctuation included, becomes the meaning; on a miss it comes back verbatim |
| Normalizer.NormalizedExample | streamlit_app.py:83-96 | `"LOL!"` normalizes to `"laughing out loud"` when `lol` means that |
| Normalizer.NormalizedWithoutHits | streamlit_app.py:89-96 | with no hit the output is the tokens joined by single spaces, and a single-spaced sentence comes back unchanged |
| Normalizer.NormalizedIdempotent | streamlit_app.py:83-96 | when every meaning is single-spaced, non-empty and free of looked-up tokens, normalizing twice is normalizing once |
| Session.SlangStore.constructor | streamlit_app.py:109-110 | the session dictionary is seeded with a clean loaded dictionary |
| Session.SlangStore.Add | streamlit_app.py:216-228 | an empty raw field is refused; an existing cleaned slang is refused; otherwise exactly the cleaned pair is inserted and the size grows by one; a refusal changes nothing; the dictionary stays clean |
| Session.SlangStore.Normalize | streamlit_app.py:139-141 | the normalizer tab shows the normalization of the input by the current session dictionary |
| Session.StartSession | streamlit_app.py:109-114 | the app stops exactly when the loader gives no dictionary or an empty one; otherwise a fresh store holds the loaded dictionary |

## Left out

- Downloading the dataset (kagglehub), unzipping it, the file-existence check that returns no dictionary (streamlit_app.py:40-42) and `pd.read_csv`. The model starts from the table `read_csv` would yield: the I/O and the network are outside it.
- `astype(str)` on missing cells (NaN becomes `"nan"`). Every cell is a string in the model.
- Unicode case mapping, whitespace and splitting. `Text` models the ASCII behaviour of `str.lower`, `str.isspace` and `str.split` only.
- Streamlit UI, caching (`@st.cache_data`), `time.sleep`, the spinner, the charts and the hard-coded metrics. They do not affect the dictionary or the output text.
- The text of the error, warning and success messages. `AddOutcome` names which of them the add form shows.
- Builder.Build: any other exception inside the `try` block also yields no dictionary. Only the empty table (where `iloc[0]` raises) is modelled.
- Persistence across sessions: the session dictionary exists only within one `SlangStore`.
