/**
 The shape of one row of the `meals` table and of the optional-field body of a
 PATCH request, plus the row filter (`where`) every query of the store is built on.
 */
module MealRecord {

  /** A value that may be absent, as an optional request field or cookie is. */
  datatype Option<+T> = None | Some(value: T) {
    /** The carried value, or `default` when absent. */
    function GetOr(default: T): T {
      match this
      case Some(v) => v
      case None => default
    }
  }

  /** The uuid primary key of a row. */
  type Uuid = string

  /**
   A session identifier as the protected handlers see it: the 401 guard that runs
   before them rejects a missing or empty `session_id` cookie, so it is never empty.
   */
  type SessionId = s: string | |s| > 0 witness "session"

  /** A `created_at` timestamp; only its order matters to the core. */
  type Timestamp = nat

  /**
   One row of the `meals` table. `id` is the primary key; name, description,
   is_on_diet and session_id are non-null, and the handlers always write created_at.
   */
  datatype Meal = Meal(
    id: Uuid,
    name: string,
    description: string,
    isOnDiet: bool,
    sessionId: SessionId,
    createdAt: Timestamp)

  /** The body of an update: a field that is `None` was absent and is not written. */
  datatype MealPatch = MealPatch(
    name: Option<string>,
    description: Option<string>,
    isOnDiet: Option<bool>,
    createdAt: Option<Timestamp>)

  /** The rows of `t` that satisfy `keep`, in table order. */
  function Where(t: seq<Meal>, keep: Meal -> bool): (r: seq<Meal>)
    ensures |r| <= |t|
    ensures forall m :: m in r <==> m in t && keep(m)
  {
    if |t| == 0 then []
    else
      var init := t[..|t| - 1];
      assert t == init + [t[|t| - 1]];
      Where(init, keep) + (if keep(t[|t| - 1]) then [t[|t| - 1]] else [])
  }

  /** Filtering distributes over concatenation: `where` keeps the table order. */
  lemma {:induction false} WhereAppend(a: seq<Meal>, b: seq<Meal>, keep: Meal -> bool)
    ensures Where(a + b, keep) == Where(a, keep) + Where(b, keep)
    decreases |b|
  {
    if |b| == 0 {
      assert a + b == a;
    } else {
      var init := b[..|b| - 1];
      assert (a + b)[..|a + b| - 1] == a + init;
      WhereAppend(a, init, keep);
    }
  }

  /** Filtering keeps exactly the copies of the kept rows: multiplicities are preserved. */
  lemma {:induction false} WhereMultiset(t: seq<Meal>, keep: Meal -> bool, m: Meal)
    ensures multiset(Where(t, keep))[m] == if keep(m) then multiset(t)[m] else 0
  {
    if |t| > 0 {
      var init := t[..|t| - 1];
      assert t == init + [t[|t| - 1]];
      WhereMultiset(init, keep, m);
    }
  }

  /** Two arrangements of the same rows have filters of the same size. */
  lemma WherePermutation(a: seq<Meal>, b: seq<Meal>, keep: Meal -> bool)
    requires multiset(a) == multiset(b)
    ensures |Where(a, keep)| == |Where(b, keep)|
  {
    forall m
      ensures multiset(Where(a, keep))[m] == multiset(Where(b, keep))[m]
    {
      WhereMultiset(a, keep, m);
      WhereMultiset(b, keep, m);
    }
    assert multiset(Where(a, keep)) == multiset(Where(b, keep));
    assert |multiset(Where(a, keep))| == |Where(a, keep)|;
    assert |multiset(Where(b, keep))| == |Where(b, keep)|;
  }

  /** The `is_on_diet` column of a sequence of rows. */
  function Flags(ms: seq<Meal>): (r: seq<bool>)
    ensures |r| == |ms|
    ensures forall k :: 0 <= k < |ms| ==> r[k] == ms[k].isOnDiet
  {
    seq(|ms|, k requires 0 <= k < |ms| => ms[k].isOnDiet)
  }
}
