/** `find_aisle` of Aisle_Finder/classifier.py: it classifies the item, then routes the
    classification to a message. The sentinel becomes a "not sold" message, an error passes
    through unchanged, and a category names the first aisle that stocks it.

    The aisle data is `aisle_data["aisles"]` after JSON loading: a sequence of aisles in the
    dictionary's iteration order, each with its list of category labels. */
module Locator {
  import opened Optional
  import opened Text
  import opened Classifier

  datatype Aisle = Aisle(name: string, categories: seq<string>)

  /** The kinds of message `find_aisle` returns, before they are rendered as text. */
  datatype Outcome =
    | NotSold(item: string)
    | PassThrough(message: string)
    | Found(item: string, aisle: string, category: string)
    | NotInDatabase(item: string)

  /** Aisle `i` lists `category` among its categories. */
  predicate Stocks(aisles: seq<Aisle>, i: nat, category: string)
  {
    i < |aisles| && category in aisles[i].categories
  }

  /** Aisle `i` stocks `category` and no aisle before it does. */
  predicate IsFirstStocking(aisles: seq<Aisle>, i: nat, category: string)
  {
    Stocks(aisles, i, category) && forall j: nat :: j < i ==> !Stocks(aisles, j, category)
  }

  /** The loop of `find_aisle`: the index of the first aisle, in iteration order, whose
      category list contains `category`, or None when no aisle does. */
  function FirstAisle(aisles: seq<Aisle>, category: string): (r: Option<nat>)
    ensures r.Some? ==> IsFirstStocking(aisles, r.value, category)
    ensures r.None? ==> forall i: nat :: !Stocks(aisles, i, category)
  {
    if aisles == [] then None
    else if category in aisles[0].categories then Some(0)
    else
      var rest := FirstAisle(aisles[1..], category);
      assert forall i: nat ::
        Stocks(aisles, i, category) ==> i > 0 && Stocks(aisles[1..], i - 1, category);
      if rest.None? then None else Some(rest.value + 1)
  }

  /** At most one aisle is the first to stock a category. */
  lemma FirstStockingUnique(aisles: seq<Aisle>, i: nat, j: nat, category: string)
    requires IsFirstStocking(aisles, i, category) && IsFirstStocking(aisles, j, category)
    ensures i == j
  {
  }

  /** Routing of a classification result, the body of `find_aisle` after its call to
      `classify_item`. */
  function Route(item: string, category: string, aisles: seq<Aisle>): (o: Outcome)
    ensures o.NotSold? ==> o.item == item
    ensures o.Found? ==> o.item == item && o.category == category
    ensures o.Found? ==> exists i: nat :: IsFirstStocking(aisles, i, category)
                                        && aisles[i].name == o.aisle
    ensures o.NotInDatabase? ==> o.item == item && forall i: nat :: !Stocks(aisles, i, category)
  {
    if category == NotFoundSentinel then NotSold(item)
    else if IsError(category) then PassThrough(category)
    else match FirstAisle(aisles, category)
      case Some(i) => Found(item, aisles[i].name, category)
      case None => NotInDatabase(item)
  }

  /** `find_aisle`: classify the item from the service's reply, then route the result. */
  function FindAisle(item: string, apiKey: Option<string>, reply: Reply, aisles: seq<Aisle>)
    : (o: Outcome)
    ensures o.PassThrough? ==> IsError(o.message)
    ensures o.Found? || o.NotInDatabase? ==> IsCategory(Classify(apiKey, reply))
    ensures o.Found? ==> o.category == Classify(apiKey, reply)
  {
    Route(item, Classify(apiKey, reply), aisles)
  }

  // ---------------------------------------------------------------------------------------
  // Routing

  /** The sentinel always becomes the "not sold" outcome, whatever the aisle data. */
  lemma RouteSentinel(item: string, aisles: seq<Aisle>)
    ensures Route(item, NotFoundSentinel, aisles) == NotSold(item)
  {
  }

  /** An error message is handed back unchanged, whatever the aisle data. */
  lemma RouteErrorUnchanged(item: string, message: string, aisles: seq<Aisle>)
    requires IsError(message)
    ensures Route(item, message, aisles) == PassThrough(message)
  {
    OutcomeKindsDisjoint(message);
  }

  /** Any other classification names the first aisle that stocks it. */
  lemma RouteFindsFirstAisle(item: string, category: string, aisles: seq<Aisle>, i: nat)
    requires category != NotFoundSentinel && !IsError(category)
    requires IsFirstStocking(aisles, i, category)
    ensures Route(item, category, aisles) == Found(item, aisles[i].name, category)
  {
    var r := FirstAisle(aisles, category);
    FirstStockingUnique(aisles, i, r.value, category);
  }

  /** Any other classification gives the "not in the database" outcome exactly when no aisle
      stocks it. */
  lemma RouteNotInDatabaseIff(item: string, category: string, aisles: seq<Aisle>)
    requires category != NotFoundSentinel && !IsError(category)
    ensures Route(item, category, aisles) == NotInDatabase(item)
        <==> forall i: nat :: !Stocks(aisles, i, category)
  {
    if forall i: nat :: !Stocks(aisles, i, category) {
      assert FirstAisle(aisles, category).None?;
    }
  }

  /** The scan stops at the first match: aisles added after a stocking aisle change nothing. */
  lemma RouteIgnoresLaterAisles(item: string, category: string, aisles: seq<Aisle>,
                                more: seq<Aisle>)
    requires Route(item, category, aisles).Found?
    ensures Route(item, category, aisles + more) == Route(item, category, aisles)
  {
    var i: nat :| IsFirstStocking(aisles, i, category)
                  && aisles[i].name == Route(item, category, aisles).aisle;
    assert (aisles + more)[i] == aisles[i];
    forall j: nat | j < i
      ensures !Stocks(aisles + more, j, category)
    {
      assert (aisles + more)[j] == aisles[j];
      assert !Stocks(aisles, j, category);
    }
    RouteFindsFirstAisle(item, category, aisles + more, i);
  }

  // ---------------------------------------------------------------------------------------
  // The whole of `find_aisle`

  /** Without an API key the caller gets the missing-key message back. */
  lemma FindAisleMissingKey(item: string, apiKey: Option<string>, reply: Reply,
                            aisles: seq<Aisle>)
    requires !KeyPresent(apiKey)
    ensures FindAisle(item, apiKey, reply, aisles) == PassThrough(MissingKeyError)
  {
    RouteErrorUnchanged(item, MissingKeyError, aisles);
  }

  /** A reply the service marks "Item Not Found" gives the "not sold" outcome. */
  lemma FindAisleNotSold(item: string, apiKey: Option<string>, reply: Reply, aisles: seq<Aisle>)
    ensures FindAisle(item, apiKey, reply, aisles) == NotSold(item)
        <==> Classify(apiKey, reply) == NotFoundSentinel
  {
  }

  /** A valid category in the reply leads to the first aisle stocking it, or to the
      "not in the database" outcome when no aisle stocks it. */
  lemma FindAisleValidCategory(item: string, apiKey: Option<string>, reply: Reply,
                               aisles: seq<Aisle>)
    requires KeyPresent(apiKey) && HasContent(reply) && IsCategory(Content(reply))
    ensures var o := FindAisle(item, apiKey, reply, aisles);
      && (o.Found? || o.NotInDatabase?)
      && (forall i: nat :: IsFirstStocking(aisles, i, Content(reply))
            ==> o == Found(item, aisles[i].name, Content(reply)))
      && (o.NotInDatabase? <==> forall i: nat :: !Stocks(aisles, i, Content(reply)))
  {
    var c := Content(reply);
    CategoryAcceptedIff(apiKey, reply);
    OutcomeKindsDisjoint(c);
    forall i: nat | IsFirstStocking(aisles, i, c)
      ensures FindAisle(item, apiKey, reply, aisles) == Found(item, aisles[i].name, c)
    {
      RouteFindsFirstAisle(item, c, aisles, i);
    }
    RouteNotInDatabaseIff(item, c, aisles);
  }

  // ---------------------------------------------------------------------------------------
  // Rendering

  const Cross: char := '\U{274C}'
  const Check: char := '\U{2705}'

  const NotSoldTail: string := "' is not sold in a grocery store."
  const NotInDatabaseTail: string := " not found in the database."

  /** The text `find_aisle` returns for each outcome: a failure is returned as it is, and every
      other message opens with its mark and quotes the item, the aisle and the category at
      fixed places. */
  function Render(o: Outcome): (m: string)
    ensures o.PassThrough? ==> m == o.message
    ensures !o.PassThrough? ==> |m| > 0
    ensures o.NotSold? ==> m[0] == Cross && OccursAt(m, o.item, 3)
    ensures o.NotInDatabase? ==> m[0] == Cross && OccursAt(m, o.item, 2)
    ensures o.Found? ==> && m[0] == Check && OccursAt(m, o.item, 2)
                         && OccursAt(m, o.aisle, 9 + |o.item|)
                         && OccursAt(m, o.category, 11 + |o.item| + |o.aisle|)
  {
    match o
    case NotSold(item) => [Cross] + " '" + item + NotSoldTail
    case PassThrough(message) => message
    case Found(item, aisle, category) => [Check] + " " + item + " is in " + aisle + " (" + category + ")."
    case NotInDatabase(item) => [Cross] + " " + item + NotInDatabaseTail
  }

  /** The rendered text tells the caller which kind of outcome it was: a check mark for a
      found aisle, a cross for the two "not available" messages, "Error" for a failure. */
  lemma RenderMarksKind(o: Outcome)
    requires o.PassThrough? ==> IsError(o.message)
    ensures var m := Render(o);
      && |m| > 0
      && (m[0] == Check <==> o.Found?)
      && (m[0] == Cross <==> o.NotSold? || o.NotInDatabase?)
      && (IsError(m) <==> o.PassThrough?)
  {
    var m := Render(o);
    if o.PassThrough? {
      assert m[0] == 'E' by { assert m[..5][0] == m[0]; }
    } else {
      assert m[0] != 'E';
    }
  }

  /** Different kinds of outcome never render to the same text, so the kind can be read
      back from the message. */
  lemma RenderKindsDistinct(o1: Outcome, o2: Outcome)
    requires o1.PassThrough? ==> IsError(o1.message)
    requires o2.PassThrough? ==> IsError(o2.message)
    requires Render(o1) == Render(o2)
    ensures o1.NotSold? == o2.NotSold? && o1.PassThrough? == o2.PassThrough?
    ensures o1.Found? == o2.Found? && o1.NotInDatabase? == o2.NotInDatabase?
  {
    RenderMarksKind(o1);
    RenderMarksKind(o2);
    if o1.NotSold? && o2.NotInDatabase? {
      NotSoldDiffersFromNotInDatabase(o1.item, o2.item);
    } else if o1.NotInDatabase? && o2.NotSold? {
      NotSoldDiffersFromNotInDatabase(o2.item, o1.item);
    }
  }

  /** The two cross-marked messages end differently ("...store." against "...database."). */
  lemma NotSoldDiffersFromNotInDatabase(item1: string, item2: string)
    ensures Render(NotSold(item1)) != Render(NotInDatabase(item2))
  {
    var m1, m2 := Render(NotSold(item1)), Render(NotInDatabase(item2));
    assert m1[|m1| - 3] == NotSoldTail[|NotSoldTail| - 3] == 'r';
    assert m2[|m2| - 3] == NotInDatabaseTail[|NotInDatabaseTail| - 3] == 's';
  }
}
