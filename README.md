# Rick and Morty location summaries: rubric scorer, notes store, star rendering

This project is a Dafny model of the deterministic parts of a small application. The application narrates locations of the Rick and Morty universe with a language model.

- **Rubric scorer** (`Evaluator`, `evaluator.dfy`) gives a generated location summary three heuristic sub-scores:
  - factual: the location's name or a resident string is quoted;
  - creativity: the population variance of the per-sentence word counts;
  - completeness: the location's type and dimension are quoted.

  It combines them into a weighted final score. `evaluate` adds an embedding-based similarity, which is 0 when there is no resident context.
- **Notes store** (`NotesStore`, `notes_repository.dfy`) is an append-only table of character notes with an AUTOINCREMENT id. `AddNote` normalises a note, drops it if it is blank, and appends it under a fresh id. `GetNotes` returns one character's newest notes, newest first, up to a limit.
- **Star rendering** (`StreamlitApp`, `streamlit_app.dfy`) shows a score as filled and empty star glyphs followed by the label `" (score/max)"`.
- **`Text`** (`text.dfy`) models the Python string operations these rely on: `p in s`, `strip()`, `split('.')`, `split()`, `c * n` and `str(n)`.
- **`Wrappers`** (`wrappers.dfy`) holds the `Option` type.

How each part is modelled:

- The scorer functions, `render_stars` and the string operations are pure. They are Dafny functions, and lemmas relate them to independent statements of what they mean.
- The notes store changes state, so it is a class. Its fields are the table's rows, in insertion order, and the next id. `AddNote` is a method, and `GetNotes` is a query function over those fields.
- The SQL query is a function over the row sequence: filter by character, order by descending id, then apply `LIMIT`.
- The population variance that the source takes from numpy is computed exactly over integers: n·Σx² − (Σx)² over n². It is proved equal to the mean squared deviation from the mean, computed over the reals.
- The final score is kept exactly, in hundredths.

Two facts about the code that the model keeps:

- The sub-scores lie in [3, 5]: each starts at 3 and only adds.
- `semantic_similarity` returns the cosine unclamped, so it can be negative. The model's similarity parameter may return any real.

## Model

| member | source | states |
|---|---|---|
| Evaluator.Covered | app/evaluation/evaluator.py:15 | The count of quoted residents is at most the number of residents, and it is positive exactly when some resident occurs in the summary |
| Evaluator.ScoreFactual | app/evaluation/evaluator.py:9-18 | The score is 3, plus 1 when the name is a substring, plus 1 when any resident is a substring, so the resident bonus is at most 1. It lies in [3, 5], and a missing or empty resident list adds nothing |
| Evaluator.FactualMonotone | app/evaluation/evaluator.py:12-17 | Adding text before or after a summary never lowers its factual score |
| Evaluator.ScoreCompleteness | app/evaluation/evaluator.py:29-36 | The score is 3, plus 1 for a non-empty type that is quoted, plus 1 for a non-empty dimension that is quoted. It lies in [3, 5], a missing or empty field adds nothing, and it is 5 exactly when both fields are non-empty and quoted |
| Evaluator.CompletenessMonotone | app/evaluation/evaluator.py:32-35 | Adding text around a summary never lowers its completeness score |
| Evaluator.NonBlankIndices | app/evaluation/evaluator.py:22 | The positions of the `if s.strip()` filter: strictly increasing, each at a piece that is not blank, and every piece that is not blank is listed |
| Evaluator.StripNonBlank | app/evaluation/evaluator.py:22 | For each k, the k-th item of the comprehension is `strip()` of the piece at the k-th position that `NonBlankIndices` lists. There are as many items as listed positions, none is blank, and there are none exactly when every piece is blank |
| Evaluator.Sentences | app/evaluation/evaluator.py:22-23 | For each k, the k-th sentence is the stripped k-th non-blank piece of `summary.split('.')`, in order, and every non-blank piece gives one. None is blank, and there are none exactly when every piece is blank |
| Evaluator.WordCounts | app/evaluation/evaluator.py:25 | There is one count per sentence, and each count is the number of whitespace-separated words of that sentence |
| Evaluator.WordCountsAreWordStarts | app/evaluation/evaluator.py:25 | Each `len(s.split())` equals the number of positions in the sentence where a word starts: a non-whitespace character that comes first or right after whitespace |
| Evaluator.WordCountsPositive | app/evaluation/evaluator.py:22-25 | Every sentence kept by the comprehension has at least one word |
| Evaluator.SquaredDeviationsNonNegative | app/evaluation/evaluator.py:26 | The sum of squared deviations is never negative |
| Evaluator.RealSums | app/evaluation/evaluator.py:26 | The sums taken over the reals equal the integer sums of the counts and of their squares |
| Evaluator.SquaredDeviationsExpand | app/evaluation/evaluator.py:26 | Σ(x − m)² = Σx² − 2mΣx + nm² for every m |
| Evaluator.VarianceFromSums | app/evaluation/evaluator.py:26 | The population variance (the mean squared deviation from the mean) equals (nΣx² − (Σx)²) / n², and that numerator is never negative |
| Evaluator.UniformVariance | app/evaluation/evaluator.py:26 | Equal values have a variance numerator of 0 |
| Evaluator.CreativityOfCounts | app/evaluation/evaluator.py:26-27 | The integer formula `min(5, max(3, 3 + num // (5n²)))` lies in [3, 5] |
| Evaluator.CreativityOfCountsIsClampedVariance | app/evaluation/evaluator.py:26-27 | On word counts, the score is 3 plus the floor of a fifth of the population variance, clamped to [3, 5]. It is 3 exactly when the variance is below 5 |
| Evaluator.ScoreCreativity | app/evaluation/evaluator.py:20-27 | The creativity score lies in [3, 5], and it is 3 when the summary has no sentence |
| Evaluator.CreativityFromVariance | app/evaluation/evaluator.py:20-27 | A summary with sentences scores clamp(3 + ⌊var/5⌋, 3, 5), where var is the population variance of its sentences' word counts. It scores 3 exactly when var < 5 |
| Evaluator.CreativityOfUniformCounts | app/evaluation/evaluator.py:26-27 | Equal word counts score 3 |
| Evaluator.CreativityOfUniformSentences | app/evaluation/evaluator.py:20-27 | A summary whose sentences all have the same number of words scores 3 |
| Evaluator.CreativityOfDotsOnly | app/evaluation/evaluator.py:22-24 | `""` and `"..."` have no sentence and score 3 |
| Evaluator.FinalScore | app/evaluation/evaluator.py:63-65 | The final score in hundredths is 100 · (0.4f + 0.3c + 0.3p), computed exactly |
| Evaluator.RubricEvaluation | app/evaluation/evaluator.py:56-66 | The record has exactly the four entries `factual`, `creativity`, `completeness` and `final_score`, and each sub-score is its scorer's result on the same inputs. The final score is 40f + 30c + 30p hundredths and lies in [300, 500]. It is 500 only when all three sub-scores are 5, and 300 only when all three are 3 |
| Evaluator.SemanticSimilarity | app/evaluation/evaluator.py:38-54 | Without residents the similarity is 0 and no embedding call is made. Otherwise there are two embedding calls, and the value is the similarity oracle's on the summary and residents |
| Evaluator.Evaluate | app/evaluation/evaluator.py:68-73 | The rubric entries are exactly `RubricEvaluation`'s. With residents `None` or empty, the similarity is 0 and nothing is embedded; otherwise the similarity is the oracle's value, from two embedding calls |
| Evaluator.EarthFactual | app/evaluation/evaluator.py:9-18 | "Earth (C-137) is home to Rick and his grandson." scores 5 for Earth (C-137), whose residents are Rick and Morty |
| Evaluator.EarthCompleteness | app/evaluation/evaluator.py:29-36 | The same summary quotes neither "Planet" nor "Dimension C-137", so it scores 3 |
| NotesStore.Normalize | app/persistence/notes_repository.py:33 | The stored text is a prefix of the stripped note, of length min(\|strip\|, 100), so it is at most 100 characters. It is empty exactly when the note is missing or blank, and otherwise it does not start with whitespace |
| NotesStore.NormalizeDropsBlank | app/persistence/notes_repository.py:33-35 | A `None`, empty or whitespace-only note normalises to the empty string |
| NotesStore.NormalizeKeepsShortStripped | app/persistence/notes_repository.py:33 | A note of at most 100 characters with no whitespace at either end is stored unchanged |
| NotesStore.AppendKeepsIncreasing | app/persistence/notes_repository.py:25 | Appending a row whose id is above every stored id keeps ids ascending, and all ids stay below the next id |
| NotesStore.RowsOf | app/persistence/notes_repository.py:45 | The `WHERE character_id = ?` filter lists only rows of that character, each of them a stored row, and lists every stored row of that character |
| NotesStore.RowsOfNewestFirst | app/persistence/notes_repository.py:25-45 | On a table with AUTOINCREMENT ids (line 25), the filtered rows are in strictly descending id order (`ORDER BY id DESC`) |
| NotesStore.Limit | app/persistence/notes_repository.py:45 | `LIMIT k` keeps a prefix of min(k, n) items when k ≥ 0, and keeps everything when k is negative |
| NotesStore.SelectRows | app/persistence/notes_repository.py:42-46 | The selected rows belong to the character, are a prefix of its newest-first rows, and number at most `limit` |
| NotesStore.Entries | app/persistence/notes_repository.py:45 | There is one `(note, created_at)` pair per selected row, in the same order |
| NotesStore.SelectRowsProperties | app/persistence/notes_repository.py:45 | The selection is strictly newest first, and it holds every row of the character when the limit allows |
| NotesStore.AppendedRowFirst | app/persistence/notes_repository.py:36-46 | After an append, any non-zero limit selects the new row first for its character |
| NotesStore.AppendedRowElsewhere | app/persistence/notes_repository.py:36-46 | An append leaves every other character's selection unchanged |
| NotesStore.AppendEffects | app/persistence/notes_repository.py:36-46 | Both of the above, for every limit and every other character |
| NotesStore.NotesRepository.constructor | app/persistence/notes_repository.py:18-30 | A new store's table is empty and valid, and its first id is 1 |
| NotesStore.NotesRepository.AddNote | app/persistence/notes_repository.py:32-40 | A note that normalises to nothing changes nothing. Otherwise exactly one row is appended: the character, the normalised text and the timestamp, under an id above every existing id. Earlier rows are unchanged and ids stay ascending. Afterwards `GetNotes(c, k)` with k ≥ 1 starts with the new note, and every other character's results are unchanged |
| NotesStore.NotesRepository.GetNotes | app/persistence/notes_repository.py:42-48 | Every entry is the note and timestamp of a stored row of that character. There are at most `limit` entries (3 by default), and in a valid store they come in strictly descending id order |
| StreamlitApp.RenderStars | app/ui/streamlit_app.py:150-157 | The length is max(s, 0) + max(max − s, 0) + \|label\|, and the text ends with the label " (s/max)" |
| StreamlitApp.LabelHasNoStar | app/ui/streamlit_app.py:157 | The label contains no star glyph |
| StreamlitApp.StarCounts | app/ui/streamlit_app.py:156-157 | There are max(s, 0) filled stars and max(max − s, 0) empty stars, and no others |
| StreamlitApp.RenderInRange | app/ui/streamlit_app.py:150-157 | For 0 ≤ s ≤ max there are exactly `max` glyphs: the first s are filled and the rest empty. The label follows |
| StreamlitApp.RenderUnconvertible | app/ui/streamlit_app.py:152-157 | A score that cannot be converted renders as five empty stars followed by " (0/5)" |
| StreamlitApp.RenderAboveMax | app/ui/streamlit_app.py:156-157 | A score above `max` renders as s filled stars and no empty star, then the label |
| StreamlitApp.LabelCountsFilledStars | app/ui/streamlit_app.py:156-157 | For s ≥ 0, the label's number consists of digits, and read back it equals the count of filled stars |
| Text.SubstringIff | app/evaluation/evaluator.py:12 | `p in s` holds exactly when some suffix of s starts with p |
| Text.SubstringOfExtension | app/evaluation/evaluator.py:12 | A substring stays a substring when text is added on either side |
| Text.TrimLeft | app/persistence/notes_repository.py:33 | `lstrip` removes exactly a whitespace-only prefix and leaves no leading whitespace |
| Text.TrimRight | app/persistence/notes_repository.py:33 | `rstrip` removes exactly a whitespace-only suffix and leaves no trailing whitespace |
| Text.Strip | app/persistence/notes_repository.py:33 | `strip` returns s without a whitespace margin on either side. The result starts and ends with non-whitespace, and it is empty exactly when s is blank |
| Text.Split | app/evaluation/evaluator.py:22 | `split('.')` yields at least one piece, and no piece contains the separator |
| Text.JoinSplit | app/evaluation/evaluator.py:22 | Joining the pieces of a split with the separator gives back the text |
| Text.SplitJoin | app/evaluation/evaluator.py:22 | Splitting a join of separator-free pieces gives back the pieces |
| Text.Words | app/evaluation/evaluator.py:25 | Every word of `split()` is non-empty and free of whitespace, and there are none exactly when the text is blank; how many there are is stated by `Text.WordsCount` |
| Text.WordsCount | app/evaluation/evaluator.py:25 | `len(s.split())` is the number of positions where a word starts: a non-whitespace character at the front or right after whitespace |
| Text.WordsPartitionText | app/evaluation/evaluator.py:25 | The words, concatenated, are exactly the text's non-whitespace characters |
| Text.Repeat | app/ui/streamlit_app.py:156 | `c * n` has length max(n, 0) and consists only of c |
| Text.OccurrencesInRepeat | app/ui/streamlit_app.py:156 | A run of n copies of c holds c exactly max(n, 0) times and no other character |
| Text.IntToDecimalRoundTrip | app/ui/streamlit_app.py:157 | `int(str(n)) == n`, and the text starts with a digit exactly when n ≥ 0 |

## Left out

- Evaluator.CreativityOfCounts: the variance is exact. `np.var`'s floating-point rounding is not modelled, so the model does not capture a float result landing just below a multiple of 5 when the exact variance is one.
- Evaluator.RubricEvaluation: the final score is kept exactly, in hundredths. `round(..., 2)` on a float, and the float representation of values such as 4.1, are not modelled.
- Evaluator.SemanticSimilarity: the non-empty branch is an opaque `similarity` parameter, which stands for building the residents' detail strings, the two embedding calls and the cosine. No numeric property of the cosine is stated.
- Evaluator.Evaluate: `round(sim, 3)` is not applied, because the similarity is an opaque real.
- Location records: only the fields the scorer reads are modelled. Indexing a record without `name` raises in the source, but here the name is always present.
- NotesStore.NotesRepository.constructor: the SQLite file, connections and `CREATE TABLE IF NOT EXISTS` are not modelled. The store starts from an empty table, so rows already in an existing database file are not represented.
- NotesStore.NotesRepository.AddNote: `datetime.utcnow().isoformat()` is a clock, so the caller passes the timestamp as `createdAt`. `character_id` is an integer, so SQLite's type affinity for other values is not modelled.
- NotesStore.NotesRepository.GetNotes: returns a sequence of pairs, not SQLite tuples from a cursor.
- StreamlitApp.RenderStars: `int(round(float(score)))` parses and rounds free input and is not modelled. The score arrives already converted, as `Some(n)`; `None` stands for a conversion that raised.
- Text.IsWhitespace: `strip()` and `split()` use a fixed table, the 29 code points of Python 3's `str.isspace`. It is not derived from the Unicode database.
- The LLM judge, its prompt and the parsing of its JSON answer; the Streamlit widgets and session state; the API client with its retries and pagination; the language-model and embedding services; and the start-up script. These are I/O, foreign services or UI.
