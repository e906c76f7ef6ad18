# Recipe document builder — a verified model

This project models the one piece of logic the cocktail question-answering
service writes itself: `load_and_prepare_documents` in `main.py`. It turns
the parsed recipe records of the cocktail dataset into one flat text per
record. Those texts are what the service later embeds and indexes.

For each record the builder does four things:

- It renders every ingredient that has a name, as `name (measure)` with
  the measure stripped of surrounding whitespace, or as the bare name when
  there is no measure.
- It joins the tags with `", "`.
- It turns the `alcoholic` flag into `contains alcohol` or `non-alcoholic`.
- It lays out the lines `Name:`, `Category:`, the alcohol phrase, `glass:`,
  the optional `tags:` line, `ingredients:` and `instructions:`.

If a record lacks one of the keys it reads with `item[...]`, the whole build
fails with that key error.

Files:

- `wrappers.dfy` (module `Wrappers`): `Option` and `Result`.
- `text.dfy` (module `Text`): the Python string operations the builder
  calls, and one reading aid.
  - `IsSpace` is `str.isspace`.
  - `TrimLeft`, `TrimRight` and `Strip` are `lstrip`, `rstrip` and
    `strip`.
  - `Join` is `sep.join`.
  - `Split` cuts a string at one character. The builder never splits; the
    lemmas use `Split` to read a finished document back line by line.
  - Lemmas characterise `Strip` and show that splitting a `Join` on its
    separator gives the pieces back.
- `document_builder.dfy` (module `DocumentBuilder`): the records, the
  functions that specify each document and the whole build, and the two
  methods that run the build as the source does. `LoadAndPrepareDocuments`
  holds the loop over records. `PrepareRecipeText` holds the body of that
  loop: the loop over ingredients, then the `+=` line assembly. Lemmas state
  the properties of the build.

Modelling decisions:

- The dataset is a parameter. `None` in a field stands for an absent key.
  - For `tags`, `None` also stands for JSON null, because
    `item.get('tags') or []` treats both the same.
  - For an ingredient's `name` and `measure`, `None` also stands for JSON
    null, because `ing.get(...)` treats both the same.
- "Truthy" is Python truthiness of an optional string: present and
  non-empty.
- The result is `Success(texts)` or `Failure(MissingKey(key))`. The key is
  the first one whose lookup raises. Lookups happen in the order `name`,
  `category`, `alcoholic`, `glass`, `instructions`, in the first record
  that lacks one. Texts built for earlier records are discarded, as the
  propagating `KeyError` discards them.
- Whitespace for `strip()` is CPython's `str.isspace` table:
  - U+0009–U+000D, U+001C–U+001F, U+0020, U+0085 and U+00A0;
  - U+1680, U+2000–U+200A, U+2028, U+2029, U+202F, U+205F and U+3000.

  The table is written out in `Text.IsSpace` and is assumed, not derived
  from a Unicode database.

Behaviour of the code worth noting:

- `alcoholic` is read with `item['alcoholic']`, so a record without it
  aborts the build like the other four keys.
- The `tags:` line depends on the joined string, not on the list. `[""]`
  gives no tags line, and `["", ""]` gives the line `tags: , `.
- A measure made only of whitespace is truthy, so it renders as `name ()`.

## Model

| member | source | states |
|---|---|---|
| `DocumentBuilder.LoadAndPrepareDocuments` | main.py:21-60 | The loop over records, appending one text per record, returns exactly `BuildDocuments(data)`: every text in order, or the first record's key error. |
| `DocumentBuilder.PrepareRecipeText` | main.py:26-55 | The per-record body returns exactly `DocumentText(item)`. This covers the ingredient loop with skip and measure branches, the tag join, and the `+=` assembly with a lookup that may abort before each keyed line. |
| `DocumentBuilder.AppendLine` | main.py:47-54 | Each `recipe_text += line + "\n"` keeps the text equal to the newline-join of the lines written so far, followed by a newline. |
| `DocumentBuilder.BuildOnePerRecord` | main.py:24-57 | The build succeeds if and only if every record has all five required keys. It then yields exactly one text per record, the i-th being record i's document, with none dropped or reordered. |
| `DocumentBuilder.BuildFromTexts` | main.py:24-57 | If every record yields its text, the build yields exactly those texts in record order. |
| `DocumentBuilder.BuildDocuments` | main.py:24-57 | The reference definition of the whole build. Its own contract: a successful build has exactly one text per record. `BuildOnePerRecord`, `BuildFromTexts` and `BuildStopsAtFirstFailure` state the rest. |
| `DocumentBuilder.DocumentText` | main.py:43-55 | The reference definition of one record's document. Its own contract: it succeeds if and only if the record has all five required keys, and a failure names a key the record lacks. `DocumentFailsOnMissingKey`, `DocumentLayout` and `DocumentBoundaries` state the rest. |
| `DocumentBuilder.RecipeLines` | main.py:43-55 | The reference definition of a complete record's lines in layout order. Its own contract: there are six or seven lines, and seven exactly when the joined tags are non-empty. `TagsLineShown`, `DocumentLayout` and `MargaritaDocument` state the rest. |
| `DocumentBuilder.BuildStopsAtFirstFailure` | main.py:46-55 | If every record before record k succeeds and record k fails, the whole build fails with record k's error and gives no partial result. |
| `DocumentBuilder.MissingKeyOf` | main.py:46-55 | It gives no key if and only if all of `name`, `category`, `alcoholic`, `glass` and `instructions` are present. Otherwise it gives a missing key with every key before it, in lookup order, present. |
| `DocumentBuilder.DocumentFailsOnMissingKey` | main.py:46-55 | A record's document fails if and only if one of the five required keys is absent, and the error names the first absent key in lookup order. |
| `DocumentBuilder.AlcoholPhrase` | main.py:48 | The phrase is one of `contains alcohol` and `non-alcoholic`. It is `contains alcohol` if and only if the flag equals 1. |
| `DocumentBuilder.IngredientEntries` | main.py:30-41 | The reference definition of the ingredient entries. Its own contract: there are no more entries than ingredients, and no entry is empty. `EntriesConcat`, `SkippedIngredient`, `KeptIngredient`, `EntriesAllNamed` and `EntriesNoneNamed` state the rest. |
| `DocumentBuilder.RenderIngredient` | main.py:35-41 | The reference definition of one kept ingredient's entry. Its own contract: the entry is at least as long as the non-empty name, and exactly as long when the measure is missing or empty. `RenderIngredientCases` and `RenderTrimsMeasure` state the rest. |
| `DocumentBuilder.EntriesConcat` | main.py:30-41 | The ingredient entries of a concatenation are the concatenated entries: each ingredient contributes independently and in input order. |
| `DocumentBuilder.SkippedIngredient` | main.py:31-32 | An ingredient whose name is missing or empty contributes nothing: removing it leaves the entries unchanged. |
| `DocumentBuilder.KeptIngredient` | main.py:34-41 | An ingredient with a non-empty name contributes exactly one entry, its rendering, at its own position. |
| `DocumentBuilder.EntriesAllNamed` | main.py:30-41 | When every ingredient is named, there are as many entries as ingredients, and entry i renders ingredient i. |
| `DocumentBuilder.EntriesNoneNamed` | main.py:30-32 | When no ingredient is named, there are no entries, and the ingredients line has an empty body. |
| `DocumentBuilder.RenderIngredientCases` | main.py:35-41 | A missing or empty measure renders the bare name. A non-empty all-whitespace measure renders `name ()`. A measure without surrounding whitespace renders `name (measure)` unchanged. |
| `DocumentBuilder.RenderTrimsMeasure` | main.py:38-39 | A measure that is whitespace, then a trimmed core, then whitespace renders as `name (core)`. |
| `DocumentBuilder.TagsLineShown` | main.py:43-52 | The document has its seventh, tags line if and only if there are two or more tags, or exactly one non-empty tag. Absent or null tags give no tags line. |
| `DocumentBuilder.DocumentLayout` | main.py:46-55 | Split at newlines, a document whose fields are single lines reads back as its lines in order. The lines are `Name: n`, `Category: c`, the alcohol phrase and `glass: g`. The `tags: ` line follows exactly when the joined tags are non-empty. Then comes the ingredients line, always present, with the `", "`-joined entries. The `instructions: i` line comes last. |
| `DocumentBuilder.DocumentBoundaries` | main.py:46-55 | Whatever the fields contain, a document starts with `Name: <name>` and a newline. It ends with a newline and `instructions: <instructions>`, with no trailing newline. The two ends do not overlap: the text is at least as long as both together. |
| `DocumentBuilder.MargaritaIngredients` | main.py:30-54 | For the Margarita record (Tequila with `2 oz`, then Lime juice without a measure), the ingredients line body is `Tequila (2 oz), Lime juice`. |
| `DocumentBuilder.MargaritaDocument` | main.py:43-55 | The Margarita record (cocktail, alcoholic flag 1, cocktail glass, the tag `Classic`, Tequila with `2 oz` and Lime juice without a measure) is complete, and its document has exactly seven lines: `Name: Margarita`, `Category: Cocktail`, `contains alcohol`, `glass: Cocktail glass`, `tags: Classic`, `ingredients: Tequila (2 oz), Lime juice` and `instructions: Shake and strain.` |
| `Text.TrimLeftSpec` | main.py:39 | `lstrip` removes exactly the maximal leading run of whitespace. |
| `Text.TrimRightSpec` | main.py:39 | `rstrip` removes exactly the maximal trailing run of whitespace. |
| `Text.TrimLeft` | main.py:39 | The reference definition of `lstrip`. Its own contract: the result is no longer than the input and does not start with whitespace. `TrimLeftSpec` and `TrimLeftPrefix` state the rest. |
| `Text.TrimRight` | main.py:39 | The reference definition of `rstrip`. Its own contract: the result is no longer than the input and does not end with whitespace. `TrimRightSpec` and `TrimRightSuffix` state the rest. |
| `Text.Strip` | main.py:39 | The reference definition of `strip()`. Its own contract: the result is no longer than the input and does not end with whitespace. `StripDecomposes`, `StripUnique`, `StripEmptyIff` and `StripIdempotent` state the rest. |
| `Text.StripDecomposes` | main.py:39 | The input is a whitespace prefix, then `strip()`'s result, then a whitespace suffix. The result neither starts nor ends with whitespace. |
| `Text.StripUnique` | main.py:39 | Any such split of a string determines `strip()`'s result: it is the trimmed middle. |
| `Text.StripEmptyIff` | main.py:38-39 | `strip()` returns the empty string if and only if the input is all whitespace. |
| `Text.StripIdempotent` | main.py:39 | Stripping twice is stripping once. |
| `Text.JoinSnoc` | main.py:44 | Joining one more element appends the separator and the element. |
| `Text.JoinEmptyIff` | main.py:44 | With a non-empty separator, the join is empty if and only if the list is empty or is one empty string. |
| `Text.Join` | main.py:44 | The reference definition of `sep.join`. Its own contract: joining two or more pieces is at least as long as the separator. `JoinSnoc`, `JoinEmptyIff` and `SplitJoin` state the rest. |
| `Text.SplitJoin` | main.py:46-55 | Splitting a one-character join, whose pieces lack that character, returns the pieces. |

## Left out

- Reading `cocktail_dataset.json` when the module is imported (main.py:17-18) is file I/O. The parsed records are a parameter.
- `llama_index`'s `Document(text=...)` wrapper (main.py:22, 57) is a library object. The model's output is the sequence of texts.
- The `print` of the document count (main.py:59) is console output.
- `ingredient_names_for_metadata` (main.py:28, 34) is built but never read, so it has no observable effect.
- The startup `lifespan` (main.py:64-104) is delegated to third-party libraries and process control. It covers model and embedding setup, vector index construction, the prompt template, and the `sys.exit(1)` that turns a build failure into process exit. The build's failure is the `Failure` result.
- The `/ask` handler and the `uvicorn` server (main.py:106-130) are asynchronous HTTP plumbing around the query engine.
- `myclient.py` is an HTTP client and console loop, outside the document builder.
- Non-string JSON values in text fields are not modelled. Python's f-strings would format any JSON value: a number as its decimal digits, a boolean as `True`/`False`, null as `None`. The model's text fields are strings. A `name`, `category`, `glass` or `instructions` key that holds null, which Python would print as `None`, cannot be expressed in the model.
- An `alcoholic` key that holds null cannot be expressed either. Python compares it rather than printing it: `None == 1` is false, so such a record gets `non-alcoholic` and does not abort. The model's `None` for `alcoholic` means an absent key, which aborts.
- For `alcoholic`, the model's flag is an integer. Python's `== 1` would also hold for `True` and `1.0`.
- The `TypeError`s and `AttributeError`s that malformed values would raise are not modelled, because the model's types rule those values out. These cover a null `ingredients`, an ingredient that is not an object, a measure or tag that is not a string, and a record that is not an object.
- `Text.IsSpace` fixes one version of CPython's Unicode whitespace table. Other Python versions may have a different table.
