/**
 * The meal routes: create, list, get, patch, delete and metrics, each scoped
 * to the caller's user id, over the `meals` table kept in insertion order.
 */
module Meals {
  import opened Wrappers
  import opened Request
  import opened MealRecords
  import opened Metrics

  /** What a meal handler replies. `Invalid` is the schema error the handler
      throws, which the framework's default error handler turns into a 500. */
  datatype MealReply =
    | Created
    | Listed(meals: seq<Meal>)
    | Found(meal: Meal)
    | NotFound(message: string)
    | Updated
    | Deleted
    | Summary(report: MetricsReport)
    | Invalid
  {
    function Status(): nat
    {
      match this
      case Created => 201
      case Listed(_) => 200
      case Found(_) => 200
      case NotFound(_) => 404
      case Updated => 201
      case Deleted => 204
      case Summary(_) => 200
      case Invalid => 500
    }
  }

  /** A create body that passed the schema, with `date` already in epoch milliseconds. */
  datatype NewMeal = NewMeal(name: string, description: string, date: int, diet: bool)

  /** The create schema: name and description strings, a coercible date, a boolean diet. */
  function ParseCreateBody(body: Body, parseDate: string -> Option<int>): (r: Option<NewMeal>)
    ensures body.NotAnObject? ==> r.None?
    ensures body.Object? ==> (
              r.Some? <==>
                && StringField(body.fields, "name").Some?
                && StringField(body.fields, "description").Some?
                && CoerceDate(Field(body.fields, "date"), parseDate).Some?
                && BoolField(body.fields, "diet").Some?)
    ensures r.Some? ==> "name" in body.fields && "description" in body.fields && "date" in body.fields && "diet" in body.fields
    ensures body.Object? && "diet" in body.fields && !body.fields["diet"].JBool? ==> r.None?
    ensures r.Some? ==> (
              && r.value.name == body.fields["name"].text
              && r.value.description == body.fields["description"].text
              && r.value.diet == body.fields["diet"].flag
              && Some(r.value.date) == CoerceDate(Some(body.fields["date"]), parseDate))
  {
    match body
    case NotAnObject => None
    case Object(f) =>
      var name := StringField(f, "name");
      var description := StringField(f, "description");
      var date := CoerceDate(Field(f, "date"), parseDate);
      var diet := BoolField(f, "diet");
      if name.Some? && description.Some? && date.Some? && diet.Some? then
        Some(NewMeal(name.value, description.value, date.value, diet.value))
      else None
  }

  /**
   * The patch schema: every field optional, but a field that is present must
   * have the create schema's type. An absent field becomes None.
   */
  function ParsePatchBody(body: Body, parseDate: string -> Option<int>): (r: Option<MealPatch>)
    ensures body.NotAnObject? ==> r.None?
    ensures body.Object? ==> (
              r.Some? <==>
                && ("name" in body.fields ==> body.fields["name"].JString?)
                && ("description" in body.fields ==> body.fields["description"].JString?)
                && ("date" in body.fields ==> CoerceDate(Some(body.fields["date"]), parseDate).Some?)
                && ("diet" in body.fields ==> body.fields["diet"].JBool?))
    ensures r.Some? ==> (
              && (r.value.name.Some? <==> "name" in body.fields)
              && (r.value.description.Some? <==> "description" in body.fields)
              && (r.value.date.Some? <==> "date" in body.fields)
              && (r.value.diet.Some? <==> "diet" in body.fields))
    ensures r.Some? && r.value.name.Some? ==> r.value.name.value == body.fields["name"].text
    ensures r.Some? && r.value.description.Some? ==> r.value.description.value == body.fields["description"].text
    ensures r.Some? && r.value.date.Some? ==> Some(r.value.date.value) == CoerceDate(Some(body.fields["date"]), parseDate)
    ensures r.Some? && r.value.diet.Some? ==> r.value.diet.value == body.fields["diet"].flag
  {
    match body
    case NotAnObject => None
    case Object(f) =>
      var name := StringField(f, "name");
      var description := StringField(f, "description");
      var date := CoerceDate(Field(f, "date"), parseDate);
      var diet := BoolField(f, "diet");
      if ("name" in f ==> name.Some?) && ("description" in f ==> description.Some?)
         && ("date" in f ==> date.Some?) && ("diet" in f ==> diet.Some?)
      then Some(MealPatch(name, description, date, diet))
      else None
  }

  /** A body holding only a new name parses to a name-only patch. */
  lemma NameOnlyPatch(newName: string, parseDate: string -> Option<int>)
    ensures ParsePatchBody(Object(map["name" := JString(newName)]), parseDate)
            == Some(MealPatch(Some(newName), None, None, None))
  {
  }

  /**
   * An object body parses to the patch that provides no column exactly when
   * it has none of the four keys, `{}` included; such a patch is refused.
   */
  lemma NoChangeWithoutColumns(fields: map<string, Json>, parseDate: string -> Option<int>)
    ensures ParsePatchBody(Object(fields), parseDate) == Some(NoChange) <==>
              "name" !in fields && "description" !in fields && "date" !in fields && "diet" !in fields
  {
  }

  class MealTable {
    /** The rows of `meals`, in insertion order. */
    var rows: seq<Meal>

    ghost predicate Valid()
      reads this
    {
      UniqueIds(rows)
    }

    constructor ()
      ensures Valid() && rows == []
    {
      rows := [];
    }

    /** GET /meals: the caller's meals, in insertion order, and nobody else's. */
    function List(caller: UserId): (r: MealReply)
      reads this
      ensures r.Listed? && r.Status() == 200
      ensures forall m :: m in r.meals <==> m in rows && m.userId == caller
    {
      OwnedByMembers(rows, caller);
      Listed(OwnedBy(rows, caller))
    }

    /** GET /meals/:mealId: found only when one row has both that id and the caller as owner. */
    function Get(caller: UserId, mealId: string): (r: MealReply)
      reads this
      ensures !IsUuid(mealId) ==> r == Invalid
      ensures IsUuid(mealId) ==>
                (r.Found? <==> exists k :: 0 <= k < |rows| && rows[k].id == mealId && rows[k].userId == caller)
      ensures IsUuid(mealId) && !r.Found? ==> r == NotFound("Meal not found")
      ensures r.Found? ==> r.meal in rows && r.meal.id == mealId && r.meal.userId == caller
    {
      if !IsUuid(mealId) then Invalid
      else match Find(rows, mealId, caller)
        case Some(k) => Found(rows[k])
        case None => NotFound("Meal not found")
    }

    /** POST /meals: one new row with a fresh id, owned by the caller. */
    method Create(caller: UserId, body: Body, parseDate: string -> Option<int>, newId: MealId)
      returns (reply: MealReply)
      requires Valid()
      requires IsUuid(newId) && forall k :: 0 <= k < |rows| ==> rows[k].id != newId
      modifies this
      ensures Valid()
      ensures reply == Created || reply == Invalid
      ensures reply == Invalid <==> ParseCreateBody(body, parseDate).None?
      ensures reply == Invalid ==> rows == old(rows)
      ensures reply == Created ==>
                var n := ParseCreateBody(body, parseDate).value;
                rows == old(rows) + [Meal(newId, caller, n.name, n.description, n.date, n.diet)]
      ensures reply == Created ==> Get(caller, newId) == Found(rows[|rows| - 1])
      ensures reply == Created ==> List(caller).meals == old(List(caller).meals) + [rows[|rows| - 1]]
      ensures forall other :: other != caller ==> List(other) == old(List(other))
    {
      var parsed := ParseCreateBody(body, parseDate);
      if parsed.None? {
        return Invalid;
      }
      var n := parsed.value;
      var m := Meal(newId, caller, n.name, n.description, n.date, n.diet);
      OwnedByConcat(rows, [m], caller);
      OwnedBySingle(m, caller);
      forall other | other != caller
        ensures OwnedBy(rows + [m], other) == OwnedBy(rows, other)
      {
        OwnedByConcat(rows, [m], other);
        OwnedBySingle(m, other);
      }
      rows := rows + [m];
      reply := Created;
    }

    /**
     * PATCH /meals/:mealId: the id is checked, then the body, then the row is
     * looked up by id and owner; only that row's provided columns change. A
     * body that provides no column makes the update itself throw.
     */
    method Patch(caller: UserId, mealId: string, body: Body, parseDate: string -> Option<int>)
      returns (reply: MealReply)
      requires Valid()
      modifies this
      ensures Valid()
      ensures reply == Updated || reply == Invalid || reply == NotFound("Meal not found")
      // the query builder throws on an update with no values, after the lookup
      ensures reply == Invalid <==>
                || !IsUuid(mealId)
                || ParsePatchBody(body, parseDate).None?
                || (old(Get(caller, mealId)).Found? && ParsePatchBody(body, parseDate) == Some(NoChange))
      ensures reply.NotFound? <==>
                IsUuid(mealId) && ParsePatchBody(body, parseDate).Some? && old(Get(caller, mealId)).NotFound?
      ensures reply != Updated ==> rows == old(rows)
      ensures reply == Updated ==>
                var k := Find(old(rows), mealId, caller).value;
                rows == old(rows)[k := ApplyPatch(old(rows)[k], ParsePatchBody(body, parseDate).value)]
      ensures reply == Updated ==>
                Get(caller, mealId) == Found(ApplyPatch(old(Get(caller, mealId)).meal, ParsePatchBody(body, parseDate).value))
      ensures forall other :: other != caller ==> List(other) == old(List(other))
    {
      if !IsUuid(mealId) {
        return Invalid;
      }
      var parsed := ParsePatchBody(body, parseDate);
      if parsed.None? {
        return Invalid;
      }
      var found := Find(rows, mealId, caller);
      if found.None? {
        return NotFound("Meal not found");
      }
      if parsed.value == NoChange {
        return Invalid;
      }
      var k := found.value;
      var m := ApplyPatch(rows[k], parsed.value);
      var before := rows;
      rows := rows[k := m];
      forall other | other != caller
        ensures OwnedBy(rows, other) == OwnedBy(before, other)
      {
        OwnedByReplace(before, k, m, other);
      }
      FindAfterPatch(before, k, m, caller);
      reply := Updated;
    }

    /** DELETE /meals/:mealId: exactly the row with that id and owner goes. */
    method Delete(caller: UserId, mealId: string) returns (reply: MealReply)
      requires Valid()
      modifies this
      ensures Valid()
      ensures reply == Deleted || reply == Invalid || reply == NotFound("Meal not found!")
      ensures reply == Invalid <==> !IsUuid(mealId)
      ensures reply.NotFound? <==> IsUuid(mealId) && old(Get(caller, mealId)).NotFound?
      ensures reply != Deleted ==> rows == old(rows)
      ensures reply == Deleted ==>
                var k := Find(old(rows), mealId, caller).value;
                rows == old(rows)[..k] + old(rows)[k + 1..]
      ensures reply == Deleted ==> Get(caller, mealId) == NotFound("Meal not found")
      ensures reply == Deleted ==> |List(caller).meals| == |old(List(caller).meals)| - 1
      ensures forall other :: other != caller ==> List(other) == old(List(other))
    {
      if !IsUuid(mealId) {
        return Invalid;
      }
      var found := Find(rows, mealId, caller);
      if found.None? {
        return NotFound("Meal not found!");
      }
      var k := found.value;
      var before := rows;
      rows := rows[..k] + rows[k + 1..];
      RemoveKeepsUniqueIds(before, k);
      assert before == before[..k] + [before[k]] + before[k + 1..];
      OwnedByRemove(before[..k], before[k], before[k + 1..], caller);
      forall other | other != caller
        ensures OwnedBy(rows, other) == OwnedBy(before, other)
      {
        OwnedByRemove(before[..k], before[k], before[k + 1..], other);
      }
      reply := Deleted;
    }

    /**
     * GET /meals/metrics: the caller's meals ordered most recent first, the
     * two diet counts, and the longest diet streak over the ordered meals.
     */
    method Metrics(caller: UserId) returns (reply: MealReply)
      ensures reply.Summary? && reply.Status() == 200
      ensures reply.report.totalMeals == |List(caller).meals|
      ensures reply.report.totalDiets == DietCount(List(caller).meals, true)
      ensures reply.report.totalNotDiets == DietCount(List(caller).meals, false)
      ensures reply.report.totalDiets + reply.report.totalNotDiets == reply.report.totalMeals
      ensures reply.report.sequenceMeals == LongestDietRun(SortByDateDesc(List(caller).meals))
      ensures reply.report.sequenceMeals <= reply.report.totalDiets
    {
      var owned := OwnedBy(rows, caller);
      var ordered := SortByDateDesc(owned);
      var dietMeals := DietCount(owned, true);
      var notDietMeals := DietCount(owned, false);
      var biggest := DietStreak(ordered);
      SortedReportFacts(owned);
      reply := Summary(MetricsReport(|ordered|, dietMeals, notDietMeals, biggest));
    }
  }

  /**
   * The metrics loop: one pass over the ordered meals, tracking the current
   * diet run (`sequence`) and the longest one seen so far (`biggest`).
   */
  method DietStreak(ordered: seq<Meal>) returns (biggest: nat)
    ensures biggest == LongestDietRun(ordered)
    ensures exists i, j :: IsDietRun(ordered, i, j) && j - i == biggest
    ensures forall i, j :: IsDietRun(ordered, i, j) ==> j - i <= biggest
  {
    var sequence := 0;
    biggest := 0;
    for i := 0 to |ordered|
      invariant sequence == TrailingDietRun(ordered[..i])
      invariant biggest == LongestDietRun(ordered[..i])
      invariant sequence <= biggest
    {
      StreakStep(ordered, i);
      if ordered[i].diet {
        sequence := sequence + 1;
        if sequence > biggest {
          biggest := sequence;
        }
      } else {
        sequence := 0;
      }
    }
    assert ordered[..|ordered|] == ordered;
    LongestDietRunIsMaximum(ordered);
  }

  /** After the row at `k` is patched in place, the lookup still lands on it. */
  lemma {:induction false} FindAfterPatch(t: seq<Meal>, k: nat, m: Meal, owner: UserId)
    requires Find(t, m.id, owner) == Some(k)
    requires t[k].id == m.id && t[k].userId == m.userId
    ensures Find(t[k := m], m.id, owner) == Some(k)
  {
    if k > 0 {
      assert t[k := m][1..] == t[1..][k - 1 := m];
      FindAfterPatch(t[1..], k - 1, m, owner);
    }
  }
}
