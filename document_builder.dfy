/** The recipe-to-document text builder of main.py: every recipe record of
    the cocktail dataset becomes one flat text block, laid out line by line,
    in the order of the records. */
module DocumentBuilder {
  import opened Wrappers
  import opened Text

  /** One entry of a record's `ingredients` list. `None` is a key that is
      absent or holds JSON null (`ing.get(...)` gives `None` for both). */
  datatype Ingredient = Ingredient(name: Option<string>, measure: Option<string>)

  /** One record of the dataset. For the five keys read with `item[...]`,
      `None` is an absent key. For `tags`, `None` is absent or null; for
      `ingredients`, `None` is absent. */
  datatype Recipe = Recipe(
    name: Option<string>,
    category: Option<string>,
    alcoholic: Option<int>,
    glass: Option<string>,
    tags: Option<seq<string>>,
    ingredients: Option<seq<Ingredient>>,
    instructions: Option<string>)

  /** The `KeyError` that aborts the whole build, with the key it names. */
  datatype BuildError = MissingKey(key: string)

  /** Python truthiness of an optional string: present and non-empty. */
  predicate Truthy(s: Option<string>) {
    s.Some? && s.value != ""
  }

  /** The keys read with `item[...]`, in the order the text is built. */
  const RequiredKeys: seq<string> := ["name", "category", "alcoholic", "glass", "instructions"]

  predicate HasKey(r: Recipe, key: string) {
    match key
    case "name" => r.name.Some?
    case "category" => r.category.Some?
    case "alcoholic" => r.alcoholic.Some?
    case "glass" => r.glass.Some?
    case "instructions" => r.instructions.Some?
    case _ => true
  }

  /** The key whose lookup raises first, if any. */
  function MissingKeyOf(r: Recipe): (k: Option<string>)
    ensures k.None? <==> forall i :: 0 <= i < |RequiredKeys| ==> HasKey(r, RequiredKeys[i])
    ensures k.Some? ==>
      exists i :: 0 <= i < |RequiredKeys| && RequiredKeys[i] == k.value
        && !HasKey(r, RequiredKeys[i]) && forall j :: 0 <= j < i ==> HasKey(r, RequiredKeys[j])
  {
    assert RequiredKeys[0] == "name" && RequiredKeys[1] == "category" && RequiredKeys[2] == "alcoholic"
      && RequiredKeys[3] == "glass" && RequiredKeys[4] == "instructions";
    if r.name.None? then Some("name")
    else if r.category.None? then Some("category")
    else if r.alcoholic.None? then Some("alcoholic")
    else if r.glass.None? then Some("glass")
    else if r.instructions.None? then Some("instructions")
    else None
  }

  predicate Complete(r: Recipe) {
    MissingKeyOf(r).None?
  }

  /** The text one kept ingredient contributes. */
  function RenderIngredient(ing: Ingredient): (r: string)
    requires Truthy(ing.name)
    ensures |r| >= |ing.name.value| > 0
    ensures |r| == |ing.name.value| <==> !Truthy(ing.measure)
  {
    if Truthy(ing.measure) then ing.name.value + " (" + Strip(ing.measure.value) + ")"
    else ing.name.value
  }

  /** The entries of the ingredients line: one per ingredient with a truthy
      name, in input order. */
  function IngredientEntries(ings: seq<Ingredient>): (r: seq<string>)
    ensures |r| <= |ings|
    ensures forall i :: 0 <= i < |r| ==> r[i] != ""
  {
    if |ings| == 0 then []
    else
      var last := ings[|ings| - 1];
      IngredientEntries(ings[..|ings| - 1])
        + (if Truthy(last.name) then [RenderIngredient(last)] else [])
  }

  /** `item.get('tags') or []`. */
  function TagList(r: Recipe): seq<string> {
    r.tags.GetOr([])
  }

  /** `item.get('ingredients', [])`. */
  function IngredientList(r: Recipe): seq<Ingredient> {
    r.ingredients.GetOr([])
  }

  /** The third line of every document. */
  function AlcoholPhrase(alcoholic: int): (r: string)
    ensures r == "contains alcohol" || r == "non-alcoholic"
    ensures r == "contains alcohol" <==> alcoholic == 1
  {
    if alcoholic == 1 then "contains alcohol" else "non-alcoholic"
  }

  /** The lines of a complete record's document, in layout order. */
  function RecipeLines(r: Recipe): (ls: seq<string>)
    requires Complete(r)
    ensures |ls| == 7 <==> Join(", ", TagList(r)) != ""
    ensures 6 <= |ls| <= 7
  {
    var tags := Join(", ", TagList(r));
    ["Name: " + r.name.value,
     "Category: " + r.category.value,
     AlcoholPhrase(r.alcoholic.value),
     "glass: " + r.glass.value]
    + (if tags != "" then ["tags: " + tags] else [])
    + ["ingredients: " + Join(", ", IngredientEntries(IngredientList(r))),
       "instructions: " + r.instructions.value]
  }

  /** The document text of one record, or the key error it raises. */
  function DocumentText(r: Recipe): (d: Result<string, BuildError>)
    ensures d.Success? <==> Complete(r)
    ensures d.Failure? ==> !HasKey(r, d.error.key)
  {
    match MissingKeyOf(r)
    case Some(k) => Failure(MissingKey(k))
    case None => Success(Join("\n", RecipeLines(r)))
  }

  /** All the documents, or the first key error: the error of the first
      record that raises it. */
  function BuildDocuments(data: seq<Recipe>): (b: Result<seq<string>, BuildError>)
    ensures b.Success? ==> |b.value| == |data|
  {
    if |data| == 0 then Success([])
    else
      match DocumentText(data[0])
      case Failure(e) => Failure(e)
      case Success(t) =>
        match BuildDocuments(data[1..])
        case Failure(e) => Failure(e)
        case Success(ts) => Success([t] + ts)
  }

  // ---------------------------------------------------------------------
  // The builder as the source runs it: loops that append to lists.
  // ---------------------------------------------------------------------

  /** The body of the loop over records: render the ingredients, join the
      tags, then build the text line by line, each `item[key]` lookup
      aborting when its key is missing. */
  method PrepareRecipeText(item: Recipe) returns (r: Result<string, BuildError>)
    ensures r == DocumentText(item)
  {
    var ingredients := item.ingredients.GetOr([]);
    var ingredientsList: seq<string> := [];
    for i := 0 to |ingredients|
      invariant ingredientsList == IngredientEntries(ingredients[..i])
    {
      assert ingredients[..i + 1][..i] == ingredients[..i];
      var name := ingredients[i].name;
      if !Truthy(name) {
        continue;
      }
      var measure := ingredients[i].measure;
      if Truthy(measure) {
        ingredientsList := ingredientsList + [name.value + " (" + Strip(measure.value) + ")"];
      } else {
        ingredientsList := ingredientsList + [name.value];
      }
    }
    assert ingredients[..|ingredients|] == ingredients;

    var tagsList := item.tags.GetOr([]);
    var tagsStr := Join(", ", tagsList);

    if item.name.None? {
      return Failure(MissingKey("name"));
    }
    var recipeText := "Name: " + item.name.value + "\n";
    ghost var lines := ["Name: " + item.name.value];
    if item.category.None? {
      return Failure(MissingKey("category"));
    }
    recipeText, lines := AppendLine(recipeText, lines, "Category: " + item.category.value);
    if item.alcoholic.None? {
      return Failure(MissingKey("alcoholic"));
    }
    recipeText, lines := AppendLine(recipeText, lines,
      if item.alcoholic.value == 1 then "contains alcohol" else "non-alcoholic");
    if item.glass.None? {
      return Failure(MissingKey("glass"));
    }
    recipeText, lines := AppendLine(recipeText, lines, "glass: " + item.glass.value);
    if tagsStr != "" {
      recipeText, lines := AppendLine(recipeText, lines, "tags: " + tagsStr);
    }
    recipeText, lines := AppendLine(recipeText, lines, "ingredients: " + Join(", ", ingredientsList));
    if item.instructions.None? {
      return Failure(MissingKey("instructions"));
    }
    var last := "instructions: " + item.instructions.value;
    JoinSnoc("\n", lines, last);
    recipeText := recipeText + last;
    lines := lines + [last];
    assert lines == RecipeLines(item);
    r := Success(recipeText);
  }

  /** `text += line + "\n"`, with the lines written so far tracked beside it. */
  method AppendLine(text: string, ghost lines: seq<string>, line: string)
    returns (text': string, ghost lines': seq<string>)
    requires |lines| > 0 && text == Join("\n", lines) + "\n"
    ensures lines' == lines + [line]
    ensures text' == Join("\n", lines') + "\n"
  {
    text' := text + line + "\n";
    lines' := lines + [line];
    JoinSnoc("\n", lines, line);
  }

  /** `load_and_prepare_documents`: one text per record, in record order;
      the first missing key aborts the whole build. */
  method LoadAndPrepareDocuments(data: seq<Recipe>) returns (r: Result<seq<string>, BuildError>)
    ensures r == BuildDocuments(data)
  {
    var documents: seq<string> := [];
    for i := 0 to |data|
      invariant |documents| == i
      invariant forall j :: 0 <= j < i ==> DocumentText(data[j]) == Success(documents[j])
    {
      var text := PrepareRecipeText(data[i]);
      if text.Failure? {
        BuildStopsAtFirstFailure(data, i);
        return Failure(text.error);
      }
      documents := documents + [text.value];
    }
    BuildFromTexts(data, documents);
    r := Success(documents);
  }

  // ---------------------------------------------------------------------
  // Properties of the build.
  // ---------------------------------------------------------------------

  /** When every record yields its text, the build yields exactly those
      texts, one per record, in record order. */
  lemma {:induction false} BuildFromTexts(data: seq<Recipe>, texts: seq<string>)
    requires |texts| == |data|
    requires forall j :: 0 <= j < |data| ==> DocumentText(data[j]) == Success(texts[j])
    ensures BuildDocuments(data) == Success(texts)
  {
    if |data| > 0 {
      BuildFromTexts(data[1..], texts[1..]);
      assert [texts[0]] + texts[1..] == texts;
    }
  }

  /** The build fails with the error of the first record that fails. */
  lemma {:induction false} BuildStopsAtFirstFailure(data: seq<Recipe>, k: nat)
    requires k < |data| && DocumentText(data[k]).Failure?
    requires forall j :: 0 <= j < k ==> DocumentText(data[j]).Success?
    ensures BuildDocuments(data) == Failure(DocumentText(data[k]).error)
  {
    if k > 0 {
      BuildStopsAtFirstFailure(data[1..], k - 1);
    }
  }

  /** The build succeeds exactly when every record is complete; it then
      holds one text per record, in record order. No record is dropped. */
  lemma {:induction false} BuildOnePerRecord(data: seq<Recipe>)
    ensures BuildDocuments(data).Success? <==> forall j :: 0 <= j < |data| ==> Complete(data[j])
    ensures BuildDocuments(data).Success? ==>
      |BuildDocuments(data).value| == |data|
      && forall j :: 0 <= j < |data| ==> DocumentText(data[j]) == Success(BuildDocuments(data).value[j])
  {
    if |data| > 0 {
      BuildOnePerRecord(data[1..]);
      if BuildDocuments(data).Success? {
        forall j | 0 <= j < |data|
          ensures Complete(data[j])
          ensures DocumentText(data[j]) == Success(BuildDocuments(data).value[j])
        {
          if j > 0 {
            assert data[1..][j - 1] == data[j];
          }
        }
      }
    }
  }

  /** A record fails exactly when one of the five keys read with
      `item[...]` is absent, and it fails on the first of them in lookup
      order. */
  lemma DocumentFailsOnMissingKey(r: Recipe)
    ensures DocumentText(r).Failure? <==> exists i :: 0 <= i < |RequiredKeys| && !HasKey(r, RequiredKeys[i])
    ensures DocumentText(r).Failure? ==>
      exists i :: 0 <= i < |RequiredKeys| && DocumentText(r).error == MissingKey(RequiredKeys[i])
        && !HasKey(r, RequiredKeys[i]) && forall j :: 0 <= j < i ==> HasKey(r, RequiredKeys[j])
  {
  }

  // ---------------------------------------------------------------------
  // Properties of the ingredients line.
  // ---------------------------------------------------------------------

  /** The entries of a concatenation are the concatenated entries: each
      ingredient contributes on its own, in place. */
  lemma {:induction false} EntriesConcat(a: seq<Ingredient>, b: seq<Ingredient>)
    ensures IngredientEntries(a + b) == IngredientEntries(a) + IngredientEntries(b)
  {
    if |b| > 0 {
      var b' := b[..|b| - 1];
      assert (a + b)[..|a + b| - 1] == a + b';
      EntriesConcat(a, b');
    } else {
      assert a + b == a;
    }
  }

  /** An ingredient without a truthy name contributes nothing. */
  lemma SkippedIngredient(a: seq<Ingredient>, x: Ingredient, b: seq<Ingredient>)
    requires !Truthy(x.name)
    ensures IngredientEntries(a + [x] + b) == IngredientEntries(a + b)
  {
    EntriesConcat(a + [x], b);
    EntriesConcat(a, [x]);
    EntriesConcat(a, b);
    assert [x][..0] == [];
  }

  /** An ingredient with a truthy name contributes exactly one entry, at
      its place. */
  lemma KeptIngredient(a: seq<Ingredient>, x: Ingredient, b: seq<Ingredient>)
    requires Truthy(x.name)
    ensures IngredientEntries(a + [x] + b)
      == IngredientEntries(a) + [RenderIngredient(x)] + IngredientEntries(b)
  {
    EntriesConcat(a + [x], b);
    EntriesConcat(a, [x]);
    assert [x][..0] == [];
  }

  /** The entries list has one entry per named ingredient, each rendered
      from the ingredient at the same position, when all are named. */
  lemma {:induction false} EntriesAllNamed(ings: seq<Ingredient>)
    requires forall i :: 0 <= i < |ings| ==> Truthy(ings[i].name)
    ensures |IngredientEntries(ings)| == |ings|
    ensures forall i :: 0 <= i < |ings| ==> IngredientEntries(ings)[i] == RenderIngredient(ings[i])
  {
    if |ings| > 0 {
      EntriesAllNamed(ings[..|ings| - 1]);
    }
  }

  /** With no named ingredient the entries list is empty. */
  lemma {:induction false} EntriesNoneNamed(ings: seq<Ingredient>)
    requires forall i :: 0 <= i < |ings| ==> !Truthy(ings[i].name)
    ensures IngredientEntries(ings) == []
  {
    if |ings| > 0 {
      EntriesNoneNamed(ings[..|ings| - 1]);
    }
  }

  /** Rendering: a missing or empty measure gives the bare name; an
      all-whitespace measure is non-empty and gives empty parentheses; a
      measure without surrounding whitespace is shown as it is. */
  lemma RenderIngredientCases(ing: Ingredient)
    requires Truthy(ing.name)
    ensures !Truthy(ing.measure) ==> RenderIngredient(ing) == ing.name.value
    ensures Truthy(ing.measure) && AllSpace(ing.measure.value) ==>
      RenderIngredient(ing) == ing.name.value + " ()"
    ensures Truthy(ing.measure) && Trimmed(ing.measure.value) ==>
      RenderIngredient(ing) == ing.name.value + " (" + ing.measure.value + ")"
  {
    if ing.measure.Some? {
      StripEmptyIff(ing.measure.value);
    }
    if Truthy(ing.measure) && Trimmed(ing.measure.value) {
      var m := ing.measure.value;
      assert m == [] + m + [];
      StripUnique(m, [], m, []);
    }
  }

  /** A non-empty measure is rendered without the whitespace around it. */
  lemma RenderTrimsMeasure(ing: Ingredient, pre: string, core: string, post: string)
    requires Truthy(ing.name) && Truthy(ing.measure)
    requires ing.measure.value == pre + core + post
    requires AllSpace(pre) && AllSpace(post) && Trimmed(core)
    ensures RenderIngredient(ing) == ing.name.value + " (" + core + ")"
  {
    StripUnique(ing.measure.value, pre, core, post);
  }

  // ---------------------------------------------------------------------
  // Properties of the layout.
  // ---------------------------------------------------------------------

  /** The tags line is shown exactly when there are at least two tags or
      one non-empty tag; missing or null tags count as no tags. */
  lemma TagsLineShown(r: Recipe)
    requires Complete(r)
    ensures var ts := TagList(r);
      (|RecipeLines(r)| == 7) <==> (|ts| >= 2 || (|ts| == 1 && ts[0] != ""))
    ensures r.tags.None? ==> |RecipeLines(r)| == 6
  {
    JoinEmptyIff(", ", TagList(r));
  }

  /** No text field of the record contains a newline. */
  predicate SingleLineFields(r: Recipe) {
    (r.name.Some? ==> '\n' !in r.name.value)
    && (r.category.Some? ==> '\n' !in r.category.value)
    && (r.glass.Some? ==> '\n' !in r.glass.value)
    && (r.instructions.Some? ==> '\n' !in r.instructions.value)
    && (forall i :: 0 <= i < |TagList(r)| ==> '\n' !in TagList(r)[i])
    && (forall i :: 0 <= i < |IngredientList(r)| ==> SingleLineIngredient(IngredientList(r)[i]))
  }

  predicate SingleLineIngredient(ing: Ingredient) {
    (ing.name.Some? ==> '\n' !in ing.name.value)
    && (ing.measure.Some? ==> '\n' !in ing.measure.value)
  }

  lemma {:induction false} EntriesSingleLine(ings: seq<Ingredient>)
    requires forall i :: 0 <= i < |ings| ==> SingleLineIngredient(ings[i])
    ensures forall i :: 0 <= i < |IngredientEntries(ings)| ==> '\n' !in IngredientEntries(ings)[i]
  {
    if |ings| > 0 {
      var last := ings[|ings| - 1];
      EntriesSingleLine(ings[..|ings| - 1]);
      if Truthy(last.name) && Truthy(last.measure) {
        StripKeepsOut(last.measure.value, '\n');
      }
    }
  }

  /** Read back line by line, the document of a record whose fields are
      single lines is: name, category, alcohol phrase, glass, the tags line
      when shown, the ingredients line (always present, possibly with an
      empty list) and the instructions, with nothing after them. */
  lemma DocumentLayout(r: Recipe)
    requires Complete(r) && SingleLineFields(r)
    ensures var ls := Split(DocumentText(r).value, '\n');
      var tags := Join(", ", TagList(r));
      |ls| == (if tags != "" then 7 else 6)
      && ls[0] == "Name: " + r.name.value
      && ls[1] == "Category: " + r.category.value
      && ls[2] == AlcoholPhrase(r.alcoholic.value)
      && ls[3] == "glass: " + r.glass.value
      && (tags != "" ==> ls[4] == "tags: " + tags)
      && ls[|ls| - 2] == "ingredients: " + Join(", ", IngredientEntries(IngredientList(r)))
      && ls[|ls| - 1] == "instructions: " + r.instructions.value
  {
    var ls := RecipeLines(r);
    var entries := IngredientEntries(IngredientList(r));
    EntriesSingleLine(IngredientList(r));
    JoinKeepsOut(", ", entries, '\n');
    JoinKeepsOut(", ", TagList(r), '\n');
    forall i | 0 <= i < |ls| ensures '\n' !in ls[i] {
    }
    SplitJoin(ls, '\n');
  }

  /** Whatever the fields hold, a document starts with its name line and
      ends with its instructions, without a trailing newline. */
  lemma DocumentBoundaries(r: Recipe)
    requires Complete(r)
    ensures var text := DocumentText(r).value;
      var head := "Name: " + r.name.value + "\n";
      var tail := "\ninstructions: " + r.instructions.value;
      |text| >= |head| + |tail|
      && text[..|head|] == head
      && text[|text| - |tail|..] == tail
  {
    var ls := RecipeLines(r);
    var n := |ls|;
    var front := ls[..n - 1];
    assert ls == front + [ls[n - 1]];
    JoinSnoc("\n", front, ls[n - 1]);
    assert front == [ls[0]] + front[1..];
    assert Join("\n", front) == ls[0] + "\n" + Join("\n", front[1..]);
  }

  /** The ingredients line of the Margarita record: one measured and one
      unmeasured ingredient. */
  lemma MargaritaIngredients(ings: seq<Ingredient>)
    requires ings == [Ingredient(Some("Tequila"), Some("2 oz")), Ingredient(Some("Lime juice"), None)]
    ensures Join(", ", IngredientEntries(ings)) == "Tequila (2 oz), Lime juice"
  {
    assert Strip("2 oz") == "2 oz" by {
      StripUnique("2 oz", [], "2 oz", []);
    }
    assert ings[..1][..0] == [];
    assert RenderIngredient(ings[0]) == "Tequila (2 oz)";
    assert IngredientEntries(ings[..1]) == ["Tequila (2 oz)"];
    assert IngredientEntries(ings) == ["Tequila (2 oz)", "Lime juice"];
  }

  /** The whole layout of the Margarita record: seven lines, the tags line
      included, in the order the document is assembled. */
  lemma MargaritaDocument(r: Recipe)
    requires r == Recipe(Some("Margarita"), Some("Cocktail"), Some(1), Some("Cocktail glass"),
                         Some(["Classic"]),
                         Some([Ingredient(Some("Tequila"), Some("2 oz")), Ingredient(Some("Lime juice"), None)]),
                         Some("Shake and strain."))
    ensures Complete(r)
    ensures RecipeLines(r) == ["Name: Margarita", "Category: Cocktail", "contains alcohol",
                               "glass: Cocktail glass", "tags: Classic",
                               "ingredients: Tequila (2 oz), Lime juice",
                               "instructions: Shake and strain."]
  {
    assert MissingKeyOf(r) == None;
    MargaritaIngredients(IngredientList(r));
    assert Join(", ", TagList(r)) == "Classic" by {
      assert TagList(r) == ["Classic"];
    }
    MargaritaLabels();
  }

  /** The labelled lines of the Margarita document, spelled out. */
  lemma MargaritaLabels()
    ensures "Name: " + "Margarita" == "Name: Margarita"
    ensures "Category: " + "Cocktail" == "Category: Cocktail"
    ensures "glass: " + "Cocktail glass" == "glass: Cocktail glass"
    ensures "tags: " + "Classic" == "tags: Classic"
    ensures "ingredients: " + "Tequila (2 oz), Lime juice" == "ingredients: Tequila (2 oz), Lime juice"
    ensures "instructions: " + "Shake and strain." == "instructions: Shake and strain."
  {
  }
}
