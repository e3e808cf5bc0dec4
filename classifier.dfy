/** `GeminiClient.classify_expense_category` and the MIME table of
    `GeminiClient.analyze_receipt_image` (app/services/llm_client.py).
    The Gemini SDK is not modelled: whether the library is installed, the API
    key, whether the client can be constructed and what the text model answers
    are inputs. */
module Classifier {
  import opened Wrappers
  import opened Text

  /** The answers the classifier may give, in the order the fallback search tries them. */
  const ValidCategories: seq<string> := ["Food", "Transport", "Utility", "Entertainment"]

  /** The answer given whenever classification is not possible. */
  const DefaultCategory: string := "Utility"

  /** How many items the prompt lists at most. */
  const MaxPromptItems: nat := 10

  /** A purchased item as the classifier sees it: the value of its `nome`
      key, `None` when the key is missing or holds JSON null. */
  datatype Item = Item(nome: Option<string>)

  /** The module-level facts `classify_expense_category` consults before
      asking the model. `apiKey` is "" when neither environment variable is set. */
  datatype Env = Env(libraryInstalled: bool, apiKey: string, clientStarts: bool)

  /** What `generate_content` did: answered with `response.text` (possibly
      `None`), or raised. */
  datatype Reply = Answered(text: Option<string>) | CallRaised

  /** The outcome of one call: the category returned, whether a client was
      created and which item list the model was asked about, or the exception
      `_create_client` raises from outside the `try`. */
  datatype Outcome =
    | Returned(category: string, clientCreated: bool, asked: Option<string>)
    | ClientInitRaised

  /** `item.get('nome')` is truthy. */
  predicate HasName(item: Item) {
    item.nome.Some? && item.nome.value != ""
  }

  /** The names a list comprehension `[item.get('nome', '') for item in items if item.get('nome')]` keeps. */
  function Names(items: seq<Item>): (r: seq<string>)
    ensures |r| <= |items|
    ensures forall k :: 0 <= k < |r| ==> r[k] != ""
  {
    if items == [] then []
    else (if HasName(items[0]) then [items[0].nome.value] else []) + Names(items[1..])
  }

  /** `items[:10]`. */
  function PromptItems(items: seq<Item>): (r: seq<Item>)
    ensures |r| <= MaxPromptItems && r <= items
    ensures |items| <= MaxPromptItems ==> r == items
    ensures |r| == if |items| <= MaxPromptItems then |items| else MaxPromptItems
  {
    if |items| <= MaxPromptItems then items else items[..MaxPromptItems]
  }

  /** `items_text`: the names of the first ten items, joined by ", ". The text
      starts with the first name listed and ends with the last one. */
  function ItemsText(items: seq<Item>): (r: string)
    ensures var names := Names(PromptItems(items));
      names != [] ==>
        names[0] <= r && |names[|names| - 1]| <= |r| && r[|r| - |names[|names| - 1]|..] == names[|names| - 1]
  {
    var names := Names(PromptItems(items));
    JoinEnds(", ", names);
    Join(", ", names)
  }

  /** Filtering distributes over concatenation, so the names keep the items' order. */
  lemma {:induction false} NamesConcat(a: seq<Item>, b: seq<Item>)
    ensures Names(a + b) == Names(a) + Names(b)
  {
    if a == [] {
      assert a + b == b;
    } else {
      var head := if HasName(a[0]) then [a[0].nome.value] else [];
      assert (a + b)[0] == a[0];
      assert (a + b)[1..] == a[1..] + b;
      assert Names(a + b) == head + Names(a[1..] + b);
      NamesConcat(a[1..], b);
      assert head + (Names(a[1..]) + Names(b)) == (head + Names(a[1..])) + Names(b);
    }
  }

  /** A name is listed exactly when some item carries it and it is not empty. */
  lemma {:induction false} NamesMembership(items: seq<Item>, x: string)
    ensures x in Names(items) <==> x != "" && exists i :: 0 <= i < |items| && items[i].nome == Some(x)
  {
    if items != [] {
      NamesMembership(items[1..], x);
      if exists i :: 0 <= i < |items[1..]| && items[1..][i].nome == Some(x) {
        var i :| 0 <= i < |items[1..]| && items[1..][i].nome == Some(x);
        assert items[i + 1].nome == Some(x);
      }
      if exists i :: 0 <= i < |items| && items[i].nome == Some(x) {
        var i :| 0 <= i < |items| && items[i].nome == Some(x);
        if i > 0 {
          assert items[1..][i - 1].nome == Some(x);
        }
      }
    }
  }

  /** The prompt lists at most ten names, and items after the tenth never matter. */
  lemma PromptNamesBounded(items: seq<Item>, rest: seq<Item>)
    ensures |Names(PromptItems(items))| <= MaxPromptItems
    ensures |items| >= MaxPromptItems ==> ItemsText(items + rest) == ItemsText(items)
  {
    if |items| >= MaxPromptItems {
      assert PromptItems(items + rest) == PromptItems(items) by {
        if |items + rest| > MaxPromptItems {
          assert (items + rest)[..MaxPromptItems] == items[..MaxPromptItems];
        } else {
          assert rest == [] && items + rest == items;
        }
      }
    }
  }

  /** A join of two or more strings holds the separator's comma, which is not whitespace. */
  lemma JoinedHasComma(xs: seq<string>)
    requires |xs| >= 2
    ensures !AllIn(Join(", ", xs), Whitespace)
  {
    var a, b := xs[0], Join(", ", xs[1..]);
    assert Join(", ", xs) == a + ", " + b;
    assert (a + ", " + b)[|a|] == ',';
    assert ',' !in Whitespace;
  }

  /** `items_text.strip()` is empty exactly when no name is listed, or a single
      whitespace-only one is: two blank names still give a non-blank ", ". */
  lemma ItemsTextBlank(items: seq<Item>)
    ensures var names := Names(PromptItems(items));
      Strip(ItemsText(items)) == "" <==>
        names == [] || (|names| == 1 && AllIn(names[0], Whitespace))
  {
    var names := Names(PromptItems(items));
    StripCharsEmptyIff(ItemsText(items), Whitespace);
    if |names| >= 2 {
      JoinedHasComma(names);
    }
  }

  /** `category.strip().strip('.').strip()`: neither end of the result is
      whitespace (a dot can still survive behind inner whitespace). */
  function Clean(category: string): (r: string)
    ensures r != [] ==> r[0] !in Whitespace && r[|r| - 1] !in Whitespace
  {
    var inner := StripChars(Strip(category), {'.'});
    StripCharsEnds(inner, Whitespace);
    Strip(inner)
  }

  /** `ValidCategories[k].lower() in category.lower()`. */
  predicate Mentions(category: string, k: nat)
    requires k < |ValidCategories|
  {
    Contains(Lower(category), Lower(ValidCategories[k]))
  }

  /** The `for` loop over `valid_categories` from position `from` on: the
      first category the answer mentions, if any. */
  function FirstMentioned(category: string, from: nat): (r: Option<nat>)
    requires from <= |ValidCategories|
    ensures r.Some? ==> from <= r.value < |ValidCategories| && Mentions(category, r.value)
    ensures r.Some? ==> forall j :: from <= j < r.value ==> !Mentions(category, j)
    ensures r.None? ==> forall j :: from <= j < |ValidCategories| ==> !Mentions(category, j)
    decreases |ValidCategories| - from
  {
    if from == |ValidCategories| then None
    else if Mentions(category, from) then Some(from)
    else FirstMentioned(category, from + 1)
  }

  /** Forces the model's already stripped answer into the four categories:
      an exact match after dropping dots and whitespace at both ends, else the
      first category in list order that the answer mentions in any case, else
      the default. */
  function Repair(category: string): (r: string)
    ensures r in ValidCategories
  {
    var clean := Clean(category);
    if clean in ValidCategories then clean
    else match FirstMentioned(category, 0)
      case Some(k) => ValidCategories[k]
      case None => DefaultCategory
  }

  /** An answer that is exactly a category once dots and whitespace are
      dropped at both ends is that category: "Food." gives "Food". */
  lemma RepairExact(category: string)
    requires Clean(category) in ValidCategories
    ensures Repair(category) == Clean(category)
  {
  }

  /** Otherwise the first category in list order that the answer mentions,
      ignoring case, wins, even when a later one is mentioned too. */
  lemma RepairFirstMention(category: string, k: nat)
    requires Clean(category) !in ValidCategories
    requires k < |ValidCategories| && Mentions(category, k)
    requires forall j :: 0 <= j < k ==> !Mentions(category, j)
    ensures Repair(category) == ValidCategories[k]
  {
    var m := FirstMentioned(category, 0);
    assert m.Some? && m.value == k;
  }

  /** An answer that neither is nor mentions a category gives the default. */
  lemma RepairNoMention(category: string)
    requires Clean(category) !in ValidCategories
    requires forall j :: 0 <= j < |ValidCategories| ==> !Mentions(category, j)
    ensures Repair(category) == DefaultCategory
  {
    var m := FirstMentioned(category, 0);
    if m.Some? {
      assert false;
    }
  }

  /** A trailing dot is dropped: "Food." gives "Food". */
  lemma RepairTrailingDot()
    ensures Repair("Food.") == "Food"
  {
    LetterNotWhitespace('F');
    LetterNotWhitespace('d');
    assert "Food."[4] == '.' && '.' !in Whitespace;
    StripCharsUntouched("Food.", Whitespace);
    assert StripChars("Food.", {'.'}) == "Food";
    StripCharsUntouched("Food", Whitespace);
    RepairExact("Food.");
  }

  lemma LetterNotWhitespace(c: char)
    requires 'a' <= c <= 'z' || 'A' <= c <= 'Z'
    ensures c !in Whitespace
  {
  }

  /** An answer naming two categories gives the one listed first:
      "food or transport" gives "Food". */
  lemma RepairFirstOfTwo()
    ensures Repair("food or transport") == "Food"
  {
    var answer := "food or transport";
    CleanUntouched(answer);
    assert answer !in ValidCategories by {
      assert |answer| == 17;
    }
    FoodOrTransportMentionsFood();
    RepairFirstMention(answer, 0);
  }

  lemma FoodOrTransportMentionsFood()
    ensures Mentions("food or transport", 0)
  {
    var answer := "food or transport";
    assert answer[..4] == "food";
    assert Lower("food") == "food" && Lower("Food") == "food";
    MentionsPrefix(answer, 0);
  }

  /** An answer that starts and ends with a letter is left as it is by `Clean`. */
  lemma CleanUntouched(answer: string)
    requires answer != []
    requires 'a' <= answer[0] <= 'z' && 'a' <= answer[|answer| - 1] <= 'z'
    ensures Clean(answer) == answer
  {
    LetterNotWhitespace(answer[0]);
    LetterNotWhitespace(answer[|answer| - 1]);
    StripCharsUntouched(answer, Whitespace);
    StripCharsUntouched(answer, {'.'});
  }

  /** An answer that starts with a category's name, in any case, mentions it. */
  lemma MentionsPrefix(answer: string, k: nat)
    requires k < |ValidCategories|
    requires |ValidCategories[k]| <= |answer|
    requires Lower(answer[..|ValidCategories[k]|]) == Lower(ValidCategories[k])
    ensures Mentions(answer, k)
  {
    var n := |ValidCategories[k]|;
    assert answer == answer[..n] + answer[n..];
    LowerConcat(answer[..n], answer[n..]);
  }

  /** `classify_expense_category(items)`, the model call replaced by its
      `reply`. */
  function Classify(env: Env, items: seq<Item>, reply: Reply): (r: Outcome)
    ensures r.Returned? ==> r.category in ValidCategories
    ensures r.ClientInitRaised? <==>
      env.libraryInstalled && env.apiKey != "" && items != [] && !env.clientStarts
    ensures r.Returned? && r.clientCreated <==>
      env.libraryInstalled && env.apiKey != "" && items != [] && env.clientStarts
    ensures r.Returned? && r.asked.Some? ==>
      r.clientCreated && r.asked.value == ItemsText(items) && Strip(ItemsText(items)) != ""
    ensures (env.libraryInstalled && env.apiKey != "" && items != [] && env.clientStarts
             && Strip(ItemsText(items)) != "") ==>
      r.Returned? && r.asked == Some(ItemsText(items))
    ensures r.Returned? && r.category != DefaultCategory ==> r.asked.Some? && reply.Answered?
  {
    if !env.libraryInstalled then Returned(DefaultCategory, false, None)
    else if env.apiKey == "" || items == [] then Returned(DefaultCategory, false, None)
    else if !env.clientStarts then ClientInitRaised
    else
      var itemsText := ItemsText(items);
      if Strip(itemsText) == "" then Returned(DefaultCategory, true, None)
      else match reply
        case CallRaised => Returned(DefaultCategory, true, Some(itemsText))
        case Answered(text) => Returned(Repair(Strip(text.GetOr(""))), true, Some(itemsText))
  }

  /** With the library missing, no key or no items, the answer is the default
      and no client is created, whatever the model would have said. */
  lemma ClassifyWithoutPrerequisites(env: Env, items: seq<Item>, reply: Reply)
    requires !env.libraryInstalled || env.apiKey == "" || items == []
    ensures Classify(env, items, reply) == Returned(DefaultCategory, false, None)
  {
  }

  /** When the listed names are blank the model is never asked. */
  lemma ClassifyBlankItems(env: Env, items: seq<Item>, reply: Reply)
    requires env.libraryInstalled && env.apiKey != "" && items != [] && env.clientStarts
    requires forall i :: 0 <= i < |items| ==> !HasName(items[i])
    ensures Classify(env, items, reply) == Returned(DefaultCategory, true, None)
  {
    var p := PromptItems(items);
    assert forall i :: 0 <= i < |p| ==> !HasName(p[i]);
    NoNames(p);
  }

  lemma {:induction false} NoNames(items: seq<Item>)
    requires forall i :: 0 <= i < |items| ==> !HasName(items[i])
    ensures Names(items) == []
  {
    if items != [] {
      assert forall i :: 0 <= i < |items[1..]| ==> !HasName(items[1..][i]) by {
        forall i | 0 <= i < |items[1..]| ensures !HasName(items[1..][i]) {
          assert items[1..][i] == items[i + 1];
        }
      }
      NoNames(items[1..]);
    }
  }

  /** A failed model call degrades to the default instead of raising. */
  lemma ClassifyCallRaised(env: Env, items: seq<Item>)
    requires Classify(env, items, CallRaised).Returned?
    ensures Classify(env, items, CallRaised).category == DefaultCategory
  {
  }

  /** Once the model was asked, its answer is repaired by `Repair` after `strip()`. */
  lemma ClassifyAnswered(env: Env, items: seq<Item>, text: Option<string>)
    requires Classify(env, items, Answered(text)).Returned?
    requires Classify(env, items, Answered(text)).asked.Some?
    ensures Classify(env, items, Answered(text)).category == Repair(Strip(text.GetOr("")))
  {
  }

  /** `image_path.lower().split('.')[-1]` of `analyze_receipt_image`: the
      lower-cased text after the last dot of the whole path, or all of it when
      there is no dot. */
  function PathExtension(imagePath: string): (r: string)
    ensures '.' !in r && |r| <= |imagePath|
    ensures r == Lower(imagePath)[|imagePath| - |r|..]
  {
    AfterLast(Lower(imagePath), '.')
  }

  /** The `mime_types` table of `analyze_receipt_image`. */
  const MimeTypes: map<string, string> := map[
    "jpg" := "image/jpeg", "jpeg" := "image/jpeg", "png" := "image/png",
    "webp" := "image/webp", "gif" := "image/gif"
  ]

  /** The MIME type `analyze_receipt_image` sends for an image path: the
      table looked up with the path's extension. It is always an image type. */
  function MimeType(imagePath: string): (r: string)
    ensures r in {"image/jpeg", "image/png", "image/webp", "image/gif"}
  {
    MimeForKnownExtension(PathExtension(imagePath));
    MimeForExtension(PathExtension(imagePath))
  }

  /** `mime_types.get(ext, 'image/jpeg')`. */
  function MimeForExtension(ext: string): string {
    if ext in MimeTypes then MimeTypes[ext] else "image/jpeg"
  }

  lemma MimeNamesDistinct()
    ensures "image/jpeg" != "image/png" && "image/jpeg" != "image/gif"
    ensures "image/jpeg" != "image/webp" && "image/png" != "image/webp"
    ensures "image/png" != "image/gif" && "image/webp" != "image/gif"
  {
    assert "image/jpeg"[6] == 'j' && "image/webp"[6] == 'w';
    assert "image/png"[6] == 'p' && "image/gif"[6] == 'g';
  }

  lemma MimeForKnownExtension(ext: string)
    ensures ext == "jpg" || ext == "jpeg" ==> MimeForExtension(ext) == "image/jpeg"
    ensures ext == "png" ==> MimeForExtension(ext) == "image/png"
    ensures ext == "webp" ==> MimeForExtension(ext) == "image/webp"
    ensures ext == "gif" ==> MimeForExtension(ext) == "image/gif"
    ensures ext !in {"jpg", "jpeg", "png", "webp", "gif"} ==> MimeForExtension(ext) == "image/jpeg"
  {
    assert MimeTypes.Keys == {"jpg", "jpeg", "png", "webp", "gif"};
  }

  /** Each image type is sent exactly for its own extensions; anything
      unknown, a PDF included, is sent as JPEG. */
  lemma MimeTypeByExtension(imagePath: string)
    ensures MimeType(imagePath) == "image/png" <==> PathExtension(imagePath) == "png"
    ensures MimeType(imagePath) == "image/webp" <==> PathExtension(imagePath) == "webp"
    ensures MimeType(imagePath) == "image/gif" <==> PathExtension(imagePath) == "gif"
    ensures MimeType(imagePath) == "image/jpeg" <==> PathExtension(imagePath) !in {"png", "webp", "gif"}
  {
    MimeForKnownExtension(PathExtension(imagePath));
    MimeNamesDistinct();
  }

  /** The extension is the lower-cased text after the last dot of the path,
      or the whole lower-cased path when it has no dot. */
  lemma PathExtensionShape(imagePath: string)
    ensures PathExtension(imagePath) == Lower(AfterLast(imagePath, '.'))
    ensures '.' !in imagePath ==> PathExtension(imagePath) == Lower(imagePath)
  {
    LowerAfterLastDot(imagePath);
  }
}
