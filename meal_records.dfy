/**
 * Rows of the `meals` table and the queries the meal routes run over them:
 * the owner filter, the lookup by id and owner, the partial update, the
 * diet counts and the ordering by date, most recent first.
 */
module MealRecords {
  import opened Wrappers
  import opened Request

  type MealId = string

  /** One row of `meals`; `date` is epoch milliseconds, `diet` the 0/1 flag. */
  datatype Meal = Meal(id: MealId, userId: UserId, name: string, description: string, date: int, diet: bool)

  /** The fields a partial update carries; None leaves the column as it is. */
  datatype MealPatch = MealPatch(name: Option<string>, description: Option<string>, date: Option<int>, diet: Option<bool>)

  /** The patch that provides no column; the query builder refuses to run it. */
  const NoChange: MealPatch := MealPatch(None, None, None, None)

  /** The primary-key discipline of the table: no two rows share an id. */
  ghost predicate UniqueIds(t: seq<Meal>)
  {
    forall i, j :: 0 <= i < j < |t| ==> t[i].id != t[j].id
  }

  /** The rows owned by `owner`, in table order (`where({ user_id })`). */
  function OwnedBy(t: seq<Meal>, owner: UserId): (r: seq<Meal>)
    ensures |r| <= |t|
    ensures forall k :: 0 <= k < |r| ==> r[k].userId == owner
    ensures r == [] <==> forall k :: 0 <= k < |t| ==> t[k].userId != owner
  {
    if t == [] then []
    else
      var last := t[|t| - 1];
      OwnedBy(t[..|t| - 1], owner) + (if last.userId == owner then [last] else [])
  }

  /** Exactly the owner's rows appear in the owner's view. */
  lemma {:induction false} OwnedByMembers(t: seq<Meal>, owner: UserId)
    ensures forall m :: m in OwnedBy(t, owner) <==> m in t && m.userId == owner
  {
    if t != [] {
      var p := t[..|t| - 1];
      OwnedByMembers(p, owner);
      assert t == p + [t[|t| - 1]];
    }
  }

  /** Filtering a concatenation filters each part: the owner filter keeps table order. */
  lemma {:induction false} OwnedByConcat(a: seq<Meal>, b: seq<Meal>, owner: UserId)
    ensures OwnedBy(a + b, owner) == OwnedBy(a, owner) + OwnedBy(b, owner)
  {
    if b == [] {
      assert a + b == a;
    } else {
      var b' := b[..|b| - 1];
      assert (a + b)[..|a + b| - 1] == a + b';
      OwnedByConcat(a, b', owner);
    }
  }

  /** A row owned by someone else adds nothing to `owner`'s view. */
  lemma OwnedBySingle(m: Meal, owner: UserId)
    ensures OwnedBy([m], owner) == if m.userId == owner then [m] else []
  {
  }

  /** Removing row x leaves every other owner's view as it was and drops one row from its owner's. */
  lemma {:induction false} OwnedByRemove(a: seq<Meal>, x: Meal, b: seq<Meal>, owner: UserId)
    ensures x.userId != owner ==> OwnedBy(a + b, owner) == OwnedBy(a + [x] + b, owner)
    ensures x.userId == owner ==> |OwnedBy(a + b, owner)| == |OwnedBy(a + [x] + b, owner)| - 1
    decreases |b|
  {
    if b == [] {
      assert a + [x] + b == a + [x] && a + b == a;
      assert (a + [x])[..|a|] == a;
    } else {
      var b' := b[..|b| - 1];
      assert (a + [x] + b)[..|a + [x] + b| - 1] == a + [x] + b';
      assert (a + b)[..|a + b| - 1] == a + b';
      OwnedByRemove(a, x, b', owner);
    }
  }

  /** Replacing row k by a row with the same owner leaves every other owner's view as it was. */
  lemma OwnedByReplace(t: seq<Meal>, k: nat, m: Meal, owner: UserId)
    requires k < |t| && m.userId == t[k].userId != owner
    ensures OwnedBy(t[k := m], owner) == OwnedBy(t, owner)
  {
    assert t == t[..k] + [t[k]] + t[k + 1..];
    assert t[k := m] == t[..k] + [m] + t[k + 1..];
    OwnedByConcat(t[..k] + [m], t[k + 1..], owner);
    OwnedByConcat(t[..k], [m], owner);
    OwnedByConcat(t[..k] + [t[k]], t[k + 1..], owner);
    OwnedByConcat(t[..k], [t[k]], owner);
    OwnedBySingle(m, owner);
    OwnedBySingle(t[k], owner);
  }

  /** Removing a row keeps ids unique and leaves no row with the removed id. */
  lemma RemoveKeepsUniqueIds(t: seq<Meal>, k: nat)
    requires UniqueIds(t) && k < |t|
    ensures UniqueIds(t[..k] + t[k + 1..])
    ensures var r := t[..k] + t[k + 1..]; forall j :: 0 <= j < |r| ==> r[j].id != t[k].id
  {
  }

  /** The first row with this id and this owner (`where({ id, user_id }).first()`). */
  function Find(t: seq<Meal>, id: MealId, owner: UserId): (r: Option<nat>)
    ensures r.Some? ==> r.value < |t| && t[r.value].id == id && t[r.value].userId == owner
    ensures r.None? <==> forall k :: 0 <= k < |t| ==> !(t[k].id == id && t[k].userId == owner)
  {
    if t == [] then None
    else if t[0].id == id && t[0].userId == owner then Some(0)
    else match Find(t[1..], id, owner)
      case Some(k) => Some(k + 1)
      case None => None
  }

  /** With unique ids, the row Find returns is the only one with that id. */
  lemma FindIsUnique(t: seq<Meal>, id: MealId, owner: UserId, j: nat)
    requires UniqueIds(t) && Find(t, id, owner).Some?
    requires j < |t| && t[j].id == id
    ensures j == Find(t, id, owner).value
  {
  }

  /** The update with undefined keys dropped: only the provided columns change. */
  function ApplyPatch(m: Meal, p: MealPatch): (r: Meal)
    ensures r.id == m.id && r.userId == m.userId
    ensures r.name == (if p.name.Some? then p.name.value else m.name)
    ensures r.description == (if p.description.Some? then p.description.value else m.description)
    ensures r.date == (if p.date.Some? then p.date.value else m.date)
    ensures r.diet == (if p.diet.Some? then p.diet.value else m.diet)
  {
    Meal(m.id, m.userId,
         if p.name.Some? then p.name.value else m.name,
         if p.description.Some? then p.description.value else m.description,
         if p.date.Some? then p.date.value else m.date,
         if p.diet.Some? then p.diet.value else m.diet)
  }

  /** Patching twice with the same fields is patching once. */
  lemma ApplyPatchIdempotent(m: Meal, p: MealPatch)
    ensures ApplyPatch(ApplyPatch(m, p), p) == ApplyPatch(m, p)
  {
  }

  /** The number of rows whose diet flag is `diet` (`count('id')` under a `diet` filter). */
  function DietCount(t: seq<Meal>, diet: bool): (r: nat)
    ensures r <= |t|
    ensures r == 0 <==> forall k :: 0 <= k < |t| ==> t[k].diet != diet
    ensures r == |t| <==> forall k :: 0 <= k < |t| ==> t[k].diet == diet
  {
    if t == [] then 0
    else DietCount(t[..|t| - 1], diet) + (if t[|t| - 1].diet == diet then 1 else 0)
  }

  lemma {:induction false} DietCountConcat(a: seq<Meal>, b: seq<Meal>, diet: bool)
    ensures DietCount(a + b, diet) == DietCount(a, diet) + DietCount(b, diet)
  {
    if b == [] {
      assert a + b == a;
    } else {
      var b' := b[..|b| - 1];
      assert (a + b)[..|a + b| - 1] == a + b';
      DietCountConcat(a, b', diet);
    }
  }

  /** Every row is counted by exactly one of the two diet counts. */
  lemma {:induction false} DietCountsPartition(t: seq<Meal>)
    ensures DietCount(t, true) + DietCount(t, false) == |t|
  {
    if t != [] {
      DietCountsPartition(t[..|t| - 1]);
    }
  }

  /** Taking row k out of `b` takes its contribution out of the count. */
  lemma DietCountRemoveAt(b: seq<Meal>, k: nat, diet: bool)
    requires k < |b|
    ensures DietCount(b, diet) == DietCount(b[..k] + b[k + 1..], diet) + (if b[k].diet == diet then 1 else 0)
  {
    var l, x, r := b[..k], b[k], b[k + 1..];
    assert b == (l + [x]) + r;
    DietCountConcat(l + [x], r, diet);
    DietCountConcat(l, [x], diet);
    DietCountConcat(l, r, diet);
    assert [x][..0] == [];
  }

  /** Taking row k out of `b` takes one copy of it out of the multiset. */
  lemma MultisetRemoveAt(b: seq<Meal>, k: nat)
    requires k < |b|
    ensures multiset(b[..k] + b[k + 1..]) == multiset(b) - multiset{b[k]}
  {
    assert b == b[..k] + [b[k]] + b[k + 1..];
    assert multiset(b) == multiset(b[..k]) + multiset{b[k]} + multiset(b[k + 1..]);
  }

  /** The counts depend only on which rows there are, not on their order. */
  lemma {:induction false} DietCountPermutation(a: seq<Meal>, b: seq<Meal>, diet: bool)
    requires multiset(a) == multiset(b)
    ensures DietCount(a, diet) == DietCount(b, diet)
    decreases |a|
  {
    if a != [] {
      var x := a[|a| - 1];
      var a' := a[..|a| - 1];
      assert a == a' + [x];
      assert multiset(a') == multiset(a) - multiset{x};
      assert x in multiset(b);
      var k :| 0 <= k < |b| && b[k] == x;
      MultisetRemoveAt(b, k);
      DietCountPermutation(a', b[..k] + b[k + 1..], diet);
      DietCountRemoveAt(b, k, diet);
    }
  }

  /** Most recent first (`orderBy('date', 'desc')`). */
  ghost predicate SortedByDateDesc(t: seq<Meal>)
  {
    forall i, j :: 0 <= i < j < |t| ==> t[i].date >= t[j].date
  }

  /** A meal no older than every row of a sorted list can go in front of it. */
  lemma PrependSorted(x: Meal, s: seq<Meal>)
    requires SortedByDateDesc(s)
    requires forall j :: 0 <= j < |s| ==> s[j].date <= x.date
    ensures SortedByDateDesc([x] + s)
  {
  }

  /** A bound on every date carries over to any reordering. */
  lemma DatesAtMost(a: seq<Meal>, b: seq<Meal>, bound: int)
    requires multiset(a) == multiset(b)
    requires forall j :: 0 <= j < |b| ==> b[j].date <= bound
    ensures forall j :: 0 <= j < |a| ==> a[j].date <= bound
  {
    forall j | 0 <= j < |a| ensures a[j].date <= bound {
      assert a[j] in multiset(b);
    }
  }

  /** The recursive step of insertion: the head of `s` stays in front of the rest. */
  lemma InsertStep(m: Meal, s: seq<Meal>, rest: seq<Meal>)
    requires SortedByDateDesc(s) && s != [] && m.date < s[0].date
    requires SortedByDateDesc(rest) && multiset(rest) == multiset(s[1..]) + multiset{m}
    ensures SortedByDateDesc([s[0]] + rest)
    ensures multiset([s[0]] + rest) == multiset(s) + multiset{m}
  {
    var tail := s[1..];
    assert s == [s[0]] + tail;
    assert multiset(rest) == multiset([m] + tail);
    DatesAtMost(rest, [m] + tail, s[0].date);
    PrependSorted(s[0], rest);
  }

  /** Places `m` before the first row that is not more recent than it. */
  function InsertByDate(m: Meal, s: seq<Meal>): (r: seq<Meal>)
    requires SortedByDateDesc(s)
    ensures SortedByDateDesc(r)
    ensures multiset(r) == multiset(s) + multiset{m}
  {
    if s == [] || m.date >= s[0].date then
      PrependSorted(m, s);
      [m] + s
    else
      var rest := InsertByDate(m, s[1..]);
      InsertStep(m, s, rest);
      [s[0]] + rest
  }

  /**
   * The rows ordered by date, most recent first. Rows with equal dates keep
   * their table order.
   */
  function SortByDateDesc(t: seq<Meal>): (r: seq<Meal>)
    ensures SortedByDateDesc(r)
    ensures multiset(r) == multiset(t)
    ensures |r| == |t|
  {
    if t == [] then []
    else
      var r := InsertByDate(t[0], SortByDateDesc(t[1..]));
      assert t == [t[0]] + t[1..];
      assert |multiset(r)| == |r| && |multiset(t)| == |t|;
      r
  }
}
