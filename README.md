# KOSIS preprocessing utilities, modelled in Dafny

The script `data_preprocessing.py` prepares KOSIS (Statistics Korea)
population and employment tables for a report. Most of it is pandas and
file handling. Three pieces of it are self-contained logic, and this project
models and proves them:

- `convert_age_group` (module `AgeGroup`, `age_group.dfy`): turns an
  age-band label such as `"15-19세"` into its lower bound `15`. It reads the
  first maximal run of decimal digits as a number. A missing cell, or a text
  without digits, gives `None`. The model takes a `Cell` (missing, or the
  text `str()` gives) and returns `Option<nat>`. The implementation scans
  left to right and accumulates digits the way `int` does. It is proved
  equal to an independent reference: the positional value of the run
  `s[i..j]` singled out by `IsFirstRun`.
- The thousands-separator step of `clean_population_data` (module `Commas`,
  `commas.dfy`): `str.replace(',', '')` on each text cell.
- The sample-table loops of `create_sample_data` (module `SampleData`,
  `sample_data.dfy`). For each year of `range(2015, 2025)` and each
  category (four age bands, or three jobs), one record is appended whose
  count is the next `np.random.randint` result. `BuildGrid` is the nested
  loop. It is proved to build `Grid`, the table defined as the rows of the
  years appended one after the other. The lemmas then give the index
  formula and the cross-product, uniqueness and bounds properties.
  The random generator is not modelled. Its results are the input `draws`,
  in call order: the 40 population calls come first, then the 30
  employment calls. The requires clauses hold exactly the half-open bounds
  `randint(low, high)` guarantees.

`wrappers.dfy` holds the `Option` type, which stands for Python's `None`.

## Model

| member | source | states |
|---|---|---|
| `AgeGroup.ConvertAgeGroup` | data_preprocessing.py:197-211 | a missing cell gives None; a text gives None exactly when it has no digit; otherwise the result is the value of the first maximal digit run (`IsFirstRunValue`) |
| `AgeGroup.FirstNumberCorrect` | data_preprocessing.py:208-211 | the digit scan returns None iff the text has no digit, and otherwise the value of a first maximal run |
| `AgeGroup.FirstNumber` | data_preprocessing.py:208-211 | the scan finds no number (`None`) exactly when no character is a decimal digit |
| `AgeGroup.FirstNumberOfSplit` | data_preprocessing.py:208-210 | digit-free text, then a digit run `d`, then anything not starting with a digit: the result is the value of `d` |
| `AgeGroup.FirstNumberOfRun` | data_preprocessing.py:208-210 | for any first maximal run `s[i..j]`, the result is its value |
| `AgeGroup.FirstRunExists` | data_preprocessing.py:208-209 | every text with a digit has a first maximal run, so `findall` returns a non-empty list |
| `AgeGroup.ReadDigits` | data_preprocessing.py:210 | reading digits left to right into an accumulator, as `int` does, yields `acc * 10^n` plus the positional value |
| `AgeGroup.DigitRun` | data_preprocessing.py:208 | the run length found at the start of a text is maximal: all digits, ended by a non-digit or the end of the text |
| `AgeGroup.DigitRunOf` | data_preprocessing.py:208 | a digit run followed by a non-digit (or the end) is matched whole and no further |
| `AgeGroup.ConvertIgnoresTail` | data_preprocessing.py:208-210 | once a non-digit ends the first run, what follows does not change the result |
| `AgeGroup.LeadingZeros` | data_preprocessing.py:210 | leading zeros do not change the parsed value |
| `AgeGroup.BandLowerBound` | data_preprocessing.py:197-211 | a label that starts with two digits and a separator gives the two-digit number |
| `AgeGroup.ConvertExampleBand` | data_preprocessing.py:201 | `"15-19세"` gives 15 |
| `AgeGroup.ConvertExampleZeros` | data_preprocessing.py:208-210 | `"007"` gives 7 |
| `AgeGroup.ConvertExampleSign` | data_preprocessing.py:208-210 | `"-5"` gives 5: `\d+` never matches a sign |
| `Commas.RemoveCommas` | data_preprocessing.py:72 | no comma is left, and the length drops by exactly the number of commas |
| `Commas.RemoveCommasMultiset` | data_preprocessing.py:72 | every non-comma character occurs as often as before; commas occur zero times |
| `Commas.RemoveCommasAppend` | data_preprocessing.py:72 | removal on a concatenation is the concatenation of the removals |
| `Commas.RemoveCommasAt` | data_preprocessing.py:72 | the non-comma at position k lands right after what is left of the text before it, so order is kept |
| `Commas.RemoveCommasFixed` | data_preprocessing.py:72 | a text is unchanged exactly when it has no comma |
| `Commas.Idempotent` | data_preprocessing.py:72 | removing commas twice gives the same text as removing them once |
| `SampleData.Range` | data_preprocessing.py:265 | `range(start, stop)` holds exactly the integers in `[start, stop)`, strictly increasing, `stop - start` of them (or none) |
| `SampleData.Years` | data_preprocessing.py:265 | ten distinct years, exactly 2015 to 2024 |
| `SampleData.AgeBands` | data_preprocessing.py:266 | four distinct age-band labels |
| `SampleData.Jobs` | data_preprocessing.py:283 | three distinct job names |
| `SampleData.Row` | data_preprocessing.py:270-276 | one outer iteration appends one record per category, all of that iteration's year |
| `SampleData.Grid` | data_preprocessing.py:268-276 | the table has one record per draw: `#years * #cats` records |
| `SampleData.BuildGrid` | data_preprocessing.py:268-276 | the nested year/category loops build exactly `Grid(years, cats, draws)` |
| `SampleData.GridAt` | data_preprocessing.py:269-276 | record k is `(years[k / #cats], cats[k % #cats], draws[k])`: year-major order |
| `SampleData.GridCovers` | data_preprocessing.py:269-276 | every (year, category) pair of the cross product appears, at index `i * #cats + j` |
| `SampleData.GridKeysDiffer` | data_preprocessing.py:269-276 | with distinct years and categories, two different records have different (year, category) keys |
| `SampleData.GridKeysUnique` | data_preprocessing.py:269-276 | with distinct years and categories, no (year, category) key repeats |
| `SampleData.GridValues` | data_preprocessing.py:271 | if every draw lies in `[low, high)`, so does every count of the table |
| `SampleData.SampleTable` | data_preprocessing.py:268-276 | one table: equal to `Grid`, `#years * #cats` records, no (year, category) key twice, every count within the `randint` bounds `[low, high)` |
| `SampleData.CreateSampleData` | data_preprocessing.py:264-293 | 40 population and 30 employment records, each table equal to its `Grid`, keys unique, counts in `[2000000, 3500000)` and `[50000, 200000)` |
| `SampleData.AgeBandDigits` | data_preprocessing.py:266 | age band k starts with two digits and a non-digit, and those digits read as `15 + 5 * k` |
| `SampleData.AgeBandLowerBounds` | data_preprocessing.py:266 | sample age band k parses back, through `convert_age_group`, as `15 + 5 * k`: 15, 20, 25 and 30 |

## Left out

- `load_kosis_csv`, `save_processed_data` and the two `to_csv` calls of `create_sample_data`: file I/O and text encodings.
- `main` and every `print`: orchestration and console output.
- The `astype(float)` conversion after comma removal, and the bare `try/except: pass` around it: floating-point parsing, with its errors discarded.
- `calculate_growth_rate`: a pandas `pct_change` over floats (NaN for the first row, infinity after a zero).
- `pivot_data_for_visualization`: a thin call to `pandas.pivot_table`.
- `clean_employment_data` and `create_summary_statistics`: their filtering and aggregation code is commented out, so they return their input and an empty dictionary.
- `np.random.randint` itself: its results are the input `draws`; the generator and its seed are not modelled.
- `ConvertAgeGroup`: only ASCII digits `'0'..'9'` count as digits. Python's `\d` and `int` also accept other Unicode decimal digits.
- `ConvertAgeGroup`: a cell is modelled as missing or as the text of its `str()`. Which values `pd.isna` treats as missing, and how `str()` prints numbers, are not modelled.
- `ConvertAgeGroup`: the model's integers are unbounded. CPython 3.11 and later (and the 3.7 to 3.10 security releases with the same limit) make `int` raise `ValueError` on a digit string longer than 4300 digits, and that exception escapes `convert_age_group`; the model returns the value for a run of any length.
- `RemoveCommas`: pandas applies it to each cell of an object column and turns non-string cells into NaN. Only the string operation is modelled.
- The dictionaries of `create_sample_data` are modelled as one `Record` type with the fields year, category and count, for both tables. The Korean column names are not modelled.
