/**
 The `meals` table and the route handlers that read and write it. Every handler
 except creation runs behind the session guard and filters every query by the
 caller's `session_id`; creation mints a session when the request carries none.
 The table is a sequence of rows in insertion order.
 */
module MealStore {
  import opened MealRecord
  import opened Streak
  import opened MealInfo

  type Table = seq<Meal>

  /** The primary key: no two rows share an id. */
  predicate UniqueIds(t: Table) {
    forall j, k :: 0 <= j < k < |t| ==> t[j].id != t[k].id
  }

  /** The row filter `where({ id, session_id })` used by get, update and delete. */
  predicate Matches(m: Meal, session: SessionId, id: Uuid) {
    m.id == id && m.sessionId == session
  }

  /** The filter `where({ session_id })` of the list and summary queries. */
  function InSession(session: SessionId): Meal -> bool {
    (m: Meal) => m.sessionId == session
  }

  /** The filter `where({ id, session_id })`, as a function value. */
  function Selected(session: SessionId, id: Uuid): Meal -> bool {
    (m: Meal) => Matches(m, session, id)
  }

  /** The rows a delete by `(session, id)` keeps. */
  function Unselected(session: SessionId, id: Uuid): Meal -> bool {
    (m: Meal) => !Matches(m, session, id)
  }

  // ---------------------------------------------------------------------------
  // Generic facts about `Where` that the isolation lemmas are built from

  /** Two tables that agree wherever either row is kept have the same filter. */
  lemma {:induction false} WhereAgrees(a: Table, b: Table, keep: Meal -> bool)
    requires |a| == |b|
    requires forall k :: 0 <= k < |a| && (keep(a[k]) || keep(b[k])) ==> a[k] == b[k]
    ensures Where(a, keep) == Where(b, keep)
  {
    if |a| > 0 {
      WhereAgrees(a[..|a| - 1], b[..|b| - 1], keep);
    }
  }

  /** Filtering first by a weaker condition does not change a stronger filter. */
  lemma {:induction false} WhereWhere(t: Table, weaker: Meal -> bool, stronger: Meal -> bool)
    requires forall m :: stronger(m) ==> weaker(m)
    ensures Where(Where(t, weaker), stronger) == Where(t, stronger)
  {
    if |t| > 0 {
      var init := t[..|t| - 1];
      var last := t[|t| - 1];
      WhereWhere(init, weaker, stronger);
      WhereAppend(Where(init, weaker), if weaker(last) then [last] else [], stronger);
    }
  }

  /** Removing rows never makes two ids collide: a filter of a keyed table is keyed. */
  lemma {:induction false} WhereKeepsUniqueIds(t: Table, keep: Meal -> bool)
    requires UniqueIds(t)
    ensures UniqueIds(Where(t, keep))
  {
    if |t| > 0 {
      var init := t[..|t| - 1];
      var last := t[|t| - 1];
      WhereKeepsUniqueIds(init, keep);
      var w := Where(init, keep);
      forall j | 0 <= j < |w|
        ensures w[j].id != last.id
      {
        assert w[j] in init;
        var i :| 0 <= i < |init| && init[i] == w[j];
        assert t[i] == w[j];
      }
    }
  }

  // ---------------------------------------------------------------------------
  // GET /meals

  /** The caller's rows, in table order: exactly the rows whose session is the caller's. */
  function List(t: Table, session: SessionId): (r: Table)
    ensures forall m :: m in r <==> m in t && m.sessionId == session
  {
    Where(t, InSession(session))
  }

  // ---------------------------------------------------------------------------
  // GET /meals/:id

  /** The outcome of a lookup: the row, or the 404 "Meal not found". */
  datatype Lookup = Found(meal: Meal) | NotFound

  /**
   The first row with the given id in the caller's session. A row with that
   id in another session is not found, exactly as a missing id is not.
   */
  function Get(t: Table, session: SessionId, id: Uuid): (r: Lookup)
    ensures r.NotFound? <==> forall m :: m in t ==> !Matches(m, session, id)
    ensures r.Found? ==> r.meal in t && Matches(r.meal, session, id)
  {
    if |t| == 0 then NotFound
    else if Matches(t[0], session, id) then Found(t[0])
    else Get(t[1..], session, id)
  }

  /** Under the primary key, the lookup returns the one row with that id and session. */
  lemma GetFindsOwnedRow(t: Table, k: nat)
    requires UniqueIds(t) && k < |t|
    ensures Get(t, t[k].sessionId, t[k].id) == Found(t[k])
  {
    var r := Get(t, t[k].sessionId, t[k].id);
    assert t[k] in t;
    var j :| 0 <= j < |t| && t[j] == r.meal;
    if j < k {
      assert t[j].id != t[k].id;
    } else if k < j {
      assert t[k].id != t[j].id;
    }
  }

  /** A row is invisible to a lookup from any other session, even by its own id. */
  lemma GetHidesOtherSessions(t: Table, k: nat, session: SessionId)
    requires UniqueIds(t) && k < |t| && t[k].sessionId != session
    ensures Get(t, session, t[k].id) == NotFound
  {
    forall m | m in t
      ensures !Matches(m, session, t[k].id)
    {
      var j :| 0 <= j < |t| && t[j] == m;
      assert j == k || t[j].id != t[k].id;
    }
  }

  // ---------------------------------------------------------------------------
  // POST /meals

  /**
   The session carried by the request's cookie. The handler tests `!sessionId`,
   so an empty cookie value counts as no session at all.
   */
  function SessionFromCookie(cookie: Option<string>): (r: Option<SessionId>)
    ensures r.Some? <==> cookie.Some? && cookie.value != ""
    ensures r.Some? ==> r.value == cookie.value
  {
    if cookie.Some? && cookie.value != "" then Some(cookie.value) else None
  }

  /** The new table, the stored row, and the session cookie to issue, if one was minted. */
  datatype Created = Created(table: Table, meal: Meal, issuedSession: Option<SessionId>)

  /**
   Stores one new row. `newId` and `mintedSession` stand for the two random
   UUIDs the handler draws, `now` for the clock; `newId` is not yet a key.
   */
  function Create(
    t: Table, cookie: Option<string>, mintedSession: SessionId, newId: Uuid,
    name: string, description: string, isOnDiet: bool,
    createdAt: Option<Timestamp>, now: Timestamp): (r: Created)
    requires forall m :: m in t ==> m.id != newId
    ensures r.table == t + [r.meal]
    ensures r.meal.id == newId && r.meal.name == name
    ensures r.meal.description == description && r.meal.isOnDiet == isOnDiet
    ensures r.meal.createdAt == createdAt.GetOr(now)
    ensures match SessionFromCookie(cookie)
      case Some(s) => r.meal.sessionId == s && r.issuedSession == None
      case None => r.meal.sessionId == mintedSession && r.issuedSession == Some(mintedSession)
    ensures UniqueIds(t) ==> UniqueIds(r.table)
  {
    var (session, issued) :=
      match SessionFromCookie(cookie)
      case Some(s) => (s, None)
      case None => (mintedSession, Some(mintedSession));
    var createdTimestamp := match createdAt case Some(c) => c case None => now;
    var meal := Meal(newId, name, description, isOnDiet, session, createdTimestamp);
    assert meal in t + [meal];
    Created(t + [meal], meal, issued)
  }

  /**
   A request that carries a session the guard would admit stores its row under
   that session, issues no new cookie, and the row shows in that session's list.
   */
  lemma CreateWithSession(
    t: Table, session: SessionId, mintedSession: SessionId, newId: Uuid,
    name: string, description: string, isOnDiet: bool,
    createdAt: Option<Timestamp>, now: Timestamp)
    requires forall m :: m in t ==> m.id != newId
    ensures var r := Create(t, Some(session), mintedSession, newId, name, description, isOnDiet, createdAt, now);
      && r.meal.sessionId == session
      && r.issuedSession == None
      && List(r.table, session) == List(t, session) + [r.meal]
  {
    var r := Create(t, Some(session), mintedSession, newId, name, description, isOnDiet, createdAt, now);
    WhereAppend(t, [r.meal], InSession(session));
  }

  /**
   A request with no cookie, or with an empty one, gets the minted session: the
   row is stored under it, it is issued as the cookie, and the row is the only
   one that session lists when the minted id is new to the table.
   */
  lemma CreateWithoutSession(
    t: Table, cookie: Option<string>, mintedSession: SessionId, newId: Uuid,
    name: string, description: string, isOnDiet: bool,
    createdAt: Option<Timestamp>, now: Timestamp)
    requires cookie == None || cookie == Some("")
    requires forall m :: m in t ==> m.id != newId
    requires forall m :: m in t ==> m.sessionId != mintedSession
    ensures var r := Create(t, cookie, mintedSession, newId, name, description, isOnDiet, createdAt, now);
      && r.meal.sessionId == mintedSession
      && r.issuedSession == Some(mintedSession)
      && List(r.table, mintedSession) == [r.meal]
  {
    var r := Create(t, cookie, mintedSession, newId, name, description, isOnDiet, createdAt, now);
    WhereAppend(t, [r.meal], InSession(mintedSession));
    WhereDropsAll(t, InSession(mintedSession));
  }

  /** Appending a row that matches nothing earlier leaves earlier lookups to it. */
  lemma {:induction false} GetAfterAppend(t: Table, m: Meal, session: SessionId, id: Uuid)
    requires forall x :: x in t ==> !Matches(x, session, id)
    ensures Get(t + [m], session, id) == Get([m], session, id)
  {
    if |t| > 0 {
      assert (t + [m])[1..] == t[1..] + [m];
      GetAfterAppend(t[1..], m, session, id);
    }
  }

  /** After creation, the caller's session finds the new row by its id. */
  lemma CreateThenGet(
    t: Table, cookie: Option<string>, mintedSession: SessionId, newId: Uuid,
    name: string, description: string, isOnDiet: bool,
    createdAt: Option<Timestamp>, now: Timestamp)
    requires forall m :: m in t ==> m.id != newId
    ensures var r := Create(t, cookie, mintedSession, newId, name, description, isOnDiet, createdAt, now);
      Get(r.table, r.meal.sessionId, newId) == Found(r.meal)
  {
    var r := Create(t, cookie, mintedSession, newId, name, description, isOnDiet, createdAt, now);
    GetAfterAppend(t, r.meal, r.meal.sessionId, newId);
  }

  /**
   After creation, the listing of the new row's session gains exactly that row at
   its end, and the listing of every other session is unchanged.
   */
  lemma CreateThenList(
    t: Table, cookie: Option<string>, mintedSession: SessionId, newId: Uuid,
    name: string, description: string, isOnDiet: bool,
    createdAt: Option<Timestamp>, now: Timestamp, session: SessionId)
    requires forall m :: m in t ==> m.id != newId
    ensures var r := Create(t, cookie, mintedSession, newId, name, description, isOnDiet, createdAt, now);
      List(r.table, session) == List(t, session) + (if session == r.meal.sessionId then [r.meal] else [])
  {
    var r := Create(t, cookie, mintedSession, newId, name, description, isOnDiet, createdAt, now);
    WhereAppend(t, [r.meal], InSession(session));
  }

  /** A filter that keeps every row returns the table unchanged. */
  lemma {:induction false} WhereKeepsAll(t: Table, keep: Meal -> bool)
    requires forall m :: m in t ==> keep(m)
    ensures Where(t, keep) == t
  {
    if |t| > 0 {
      var init := t[..|t| - 1];
      assert t == init + [t[|t| - 1]];
      WhereKeepsAll(init, keep);
    }
  }

  /** A filter that keeps no row returns the empty table. */
  lemma {:induction false} WhereDropsAll(t: Table, keep: Meal -> bool)
    requires forall m :: m in t ==> !keep(m)
    ensures Where(t, keep) == []
  {
    if |t| > 0 {
      var init := t[..|t| - 1];
      assert t == init + [t[|t| - 1]];
      WhereDropsAll(init, keep);
    }
  }

  // ---------------------------------------------------------------------------
  // PATCH /meals/:id

  /**
   One row after an update: a field present in the body is written, an absent
   one (undefined, so left out of the update) keeps its value; the id and the
   session are never written.
   */
  function Patch(m: Meal, p: MealPatch): (r: Meal)
    ensures r.id == m.id && r.sessionId == m.sessionId
    ensures p.name.None? ==> r.name == m.name
    ensures p.description.None? ==> r.description == m.description
    ensures p.isOnDiet.None? ==> r.isOnDiet == m.isOnDiet
    ensures p.createdAt.None? ==> r.createdAt == m.createdAt
    ensures p.name.Some? ==> r.name == p.name.value
    ensures p.description.Some? ==> r.description == p.description.value
    ensures p.isOnDiet.Some? ==> r.isOnDiet == p.isOnDiet.value
    ensures p.createdAt.Some? ==> r.createdAt == p.createdAt.value
  {
    Meal(
      m.id,
      p.name.GetOr(m.name),
      p.description.GetOr(m.description),
      p.isOnDiet.GetOr(m.isOnDiet),
      m.sessionId,
      p.createdAt.GetOr(m.createdAt))
  }

  /** Applying the same body twice writes nothing new. */
  lemma PatchIdempotent(m: Meal, p: MealPatch)
    ensures Patch(Patch(m, p), p) == Patch(m, p)
  {
  }

  /** The new table and the updated rows `returning("*")` yields: possibly none, never a 404. */
  datatype Updated = Updated(table: Table, rows: Table)

  /**
   Rewrites the rows matching the caller's session and the id, and returns them
   as updated. Every other row stays where it was, as it was.
   */
  function Update(t: Table, session: SessionId, id: Uuid, p: MealPatch): (r: Updated)
    ensures |r.table| == |t|
    ensures forall k :: 0 <= k < |t| && Matches(t[k], session, id) ==> r.table[k] == Patch(t[k], p)
    ensures forall k :: 0 <= k < |t| && !Matches(t[k], session, id) ==> r.table[k] == t[k]
    ensures forall m :: m in r.rows <==> exists k :: 0 <= k < |t| && Matches(t[k], session, id) && m == Patch(t[k], p)
    ensures r.rows == [] <==> forall k :: 0 <= k < |t| ==> !Matches(t[k], session, id)
    ensures UniqueIds(t) ==> UniqueIds(r.table)
    ensures UniqueIds(t) ==> |r.rows| <= 1
  {
    var table := seq(|t|, k requires 0 <= k < |t| =>
      if Matches(t[k], session, id) then Patch(t[k], p) else t[k]);
    var rows := Where(table, Selected(session, id));
    assert |rows| > 0 ==> rows[0] in rows;
    assert forall k :: 0 <= k < |t| && Matches(t[k], session, id) ==> table[k] in rows;
    assert UniqueIds(t) ==> |rows| <= 1 by {
      if UniqueIds(t) {
        assert UniqueIds(table);
        SelectedAtMostOne(table, session, id);
      }
    }
    Updated(table, rows)
  }

  /** Under the primary key, `where({ id, session_id })` selects at most one row. */
  lemma {:induction false} SelectedAtMostOne(t: Table, session: SessionId, id: Uuid)
    requires UniqueIds(t)
    ensures |Where(t, Selected(session, id))| <= 1
  {
    if |t| > 0 {
      var init := t[..|t| - 1];
      var last := t[|t| - 1];
      if Matches(last, session, id) {
        forall m | m in init
          ensures !Selected(session, id)(m)
        {
          var i :| 0 <= i < |init| && init[i] == m;
          assert t[i] == m;
        }
        WhereDropsAll(init, Selected(session, id));
      } else {
        SelectedAtMostOne(init, session, id);
      }
    }
  }

  /**
   Updating a row by its own id from its own session returns exactly that row,
   updated, once: the one-element response of `returning("*")`.
   */
  lemma UpdateReturnsRow(t: Table, k: nat, p: MealPatch)
    requires UniqueIds(t) && k < |t|
    ensures Update(t, t[k].sessionId, t[k].id, p).rows == [Patch(t[k], p)]
  {
    var u := Update(t, t[k].sessionId, t[k].id, p);
    assert u.rows != [];
    assert u.rows[0] in u.rows;
    var j :| 0 <= j < |t| && Matches(t[j], t[k].sessionId, t[k].id) && u.rows[0] == Patch(t[j], p);
    assert j == k;
  }

  /** Repeating an update with the same body changes nothing further. */
  lemma UpdateIdempotent(t: Table, session: SessionId, id: Uuid, p: MealPatch)
    ensures var once := Update(t, session, id, p);
      Update(once.table, session, id, p).table == once.table
  {
    var once := Update(t, session, id, p);
    var twice := Update(once.table, session, id, p);
    forall k | 0 <= k < |t|
      ensures twice.table[k] == once.table[k]
    {
      PatchIdempotent(t[k], p);
    }
  }

  /** An update never changes what another session lists. */
  lemma UpdateIsolation(t: Table, session: SessionId, id: Uuid, p: MealPatch, other: SessionId)
    requires other != session
    ensures List(Update(t, session, id, p).table, other) == List(t, other)
  {
    WhereAgrees(Update(t, session, id, p).table, t, InSession(other));
  }

  /**
   After an update the row is found with the body applied; by `Patch`, a body
   carrying only `is_on_diet` leaves name, description and timestamp as they were.
   */
  lemma UpdateThenGet(t: Table, k: nat, p: MealPatch)
    requires UniqueIds(t) && k < |t|
    ensures var u := Update(t, t[k].sessionId, t[k].id, p);
      Get(u.table, t[k].sessionId, t[k].id) == Found(Patch(t[k], p))
  {
    var u := Update(t, t[k].sessionId, t[k].id, p);
    GetFindsOwnedRow(u.table, k);
  }

  // ---------------------------------------------------------------------------
  // DELETE /meals/:id

  /**
   Removes the rows matching the caller's session and the id; every other row
   stays, in order. The handler answers 204 whether or not a row matched.
   */
  function Delete(t: Table, session: SessionId, id: Uuid): (r: Table)
    ensures forall m :: m in r <==> m in t && !Matches(m, session, id)
    ensures UniqueIds(t) ==> UniqueIds(r)
  {
    var r := Where(t, Unselected(session, id));
    assert UniqueIds(t) ==> UniqueIds(r) by {
      if UniqueIds(t) {
        WhereKeepsUniqueIds(t, Unselected(session, id));
      }
    }
    r
  }

  /** After a delete, the same session no longer finds the id. */
  lemma DeleteThenGet(t: Table, session: SessionId, id: Uuid)
    ensures Get(Delete(t, session, id), session, id) == NotFound
  {
  }

  /** Deleting twice is deleting once: the second delete removes nothing. */
  lemma DeleteIdempotent(t: Table, session: SessionId, id: Uuid)
    ensures Delete(Delete(t, session, id), session, id) == Delete(t, session, id)
  {
    WhereWhere(t, Unselected(session, id), Unselected(session, id));
  }

  /** Deleting the row just created, from the session that created it, restores the table. */
  lemma CreateThenDelete(
    t: Table, cookie: Option<string>, mintedSession: SessionId, newId: Uuid,
    name: string, description: string, isOnDiet: bool,
    createdAt: Option<Timestamp>, now: Timestamp)
    requires forall m :: m in t ==> m.id != newId
    ensures var r := Create(t, cookie, mintedSession, newId, name, description, isOnDiet, createdAt, now);
      Delete(r.table, r.meal.sessionId, newId) == t
  {
    var r := Create(t, cookie, mintedSession, newId, name, description, isOnDiet, createdAt, now);
    var keep := Unselected(r.meal.sessionId, newId);
    WhereAppend(t, [r.meal], keep);
    WhereKeepsAll(t, keep);
  }

  /** A delete never changes what another session lists. */
  lemma DeleteIsolation(t: Table, session: SessionId, id: Uuid, other: SessionId)
    requires other != session
    ensures List(Delete(t, session, id), other) == List(t, other)
  {
    WhereWhere(t, Unselected(session, id), InSession(other));
  }

  /**
   A row of one session is out of reach of every other session: it is not
   listed, not found, and neither an update nor a delete by its id touches it.
   */
  lemma CrossSessionIsolation(t: Table, k: nat, other: SessionId, p: MealPatch)
    requires UniqueIds(t) && k < |t| && t[k].sessionId != other
    ensures t[k] !in List(t, other)
    ensures Get(t, other, t[k].id) == NotFound
    ensures Update(t, other, t[k].id, p).table[k] == t[k]
    ensures Update(t, other, t[k].id, p).rows == []
    ensures t[k] in Delete(t, other, t[k].id)
  {
    GetHidesOtherSessions(t, k, other);
    var u := Update(t, other, t[k].id, p);
    forall j | 0 <= j < |t|
      ensures !Matches(t[j], other, t[k].id)
    {
      assert t[j] in t;
    }
  }

  // ---------------------------------------------------------------------------
  // GET /meals/info

  /** Rows in ascending `created_at` order; rows with equal timestamps may come in any order. */
  predicate SortedByCreatedAt(ms: seq<Meal>) {
    forall j, k :: 0 <= j < k < |ms| ==> ms[j].createdAt <= ms[k].createdAt
  }

  /**
   The summary handler. `ordered` is the caller's rows as the query sorted by
   `created_at` ascending returns them. The counts depend only on which rows the
   session owns; the best sequence follows the order given.
   */
  method Info(t: Table, session: SessionId, ordered: seq<Meal>) returns (info: Summary)
    requires multiset(ordered) == multiset(List(t, session))
    requires SortedByCreatedAt(ordered)
    ensures info.mealsCount == |List(t, session)|
    ensures info.mealsOnDietCount == |OnDiet(List(t, session))|
    ensures info.mealsOffDietCount == |List(t, session)| - |OnDiet(List(t, session))|
    ensures info == Summarize(ordered)
  {
    info := SummarizeMeals(ordered);
    assert |multiset(ordered)| == |List(t, session)|;
    WherePermutation(ordered, List(t, session), IsOnDiet);
    OnDietCountIsFlagCount(ordered);
    CountTrueIsMultiplicity(Flags(ordered));
  }

  /** Rows in strictly ascending `created_at` order: no two share a timestamp. */
  predicate StrictlySortedByCreatedAt(ms: seq<Meal>) {
    forall j, k :: 0 <= j < k < |ms| ==> ms[j].createdAt < ms[k].createdAt
  }

  /**
   When no two rows share a timestamp there is only one ascending order: any
   sorted arrangement of strictly sorted rows is those rows as they stand.
   */
  lemma {:induction false} SortedOrderIsUnique(a: seq<Meal>, b: seq<Meal>)
    requires StrictlySortedByCreatedAt(a) && SortedByCreatedAt(b)
    requires multiset(a) == multiset(b)
    ensures a == b
  {
    assert |a| == |multiset(a)| == |multiset(b)| == |b|;
    if |a| > 0 {
      SortedHeadsAgree(a, b);
      assert a == [a[0]] + a[1..];
      assert b == [b[0]] + b[1..];
      assert multiset(a[1..]) == multiset(a) - multiset{a[0]};
      assert multiset(b[1..]) == multiset(b) - multiset{b[0]};
      SortedOrderIsUnique(a[1..], b[1..]);
    }
  }

  /** The earliest row of a strictly sorted arrangement comes first in every sorted one. */
  lemma SortedHeadsAgree(a: seq<Meal>, b: seq<Meal>)
    requires StrictlySortedByCreatedAt(a) && SortedByCreatedAt(b)
    requires multiset(a) == multiset(b) && |a| > 0 && |b| > 0
    ensures a[0] == b[0]
  {
    assert b[0] in multiset(a);
    var j :| 0 <= j < |a| && a[j] == b[0];
    assert a[0] in multiset(b);
    var i :| 0 <= i < |b| && b[i] == a[0];
  }

  /**
   A row created from the clock, when the clock has moved past every stored
   timestamp, keeps the session's listing in strictly ascending time order.
   */
  lemma CreateKeepsChronology(
    t: Table, cookie: Option<string>, mintedSession: SessionId, newId: Uuid,
    name: string, description: string, isOnDiet: bool, now: Timestamp, session: SessionId)
    requires forall m :: m in t ==> m.id != newId
    requires forall m :: m in t ==> m.createdAt < now
    requires StrictlySortedByCreatedAt(List(t, session))
    ensures var r := Create(t, cookie, mintedSession, newId, name, description, isOnDiet, None, now);
      StrictlySortedByCreatedAt(List(r.table, session))
  {
    CreateThenList(t, cookie, mintedSession, newId, name, description, isOnDiet, None, now, session);
    var before := List(t, session);
    forall k | 0 <= k < |before|
      ensures before[k].createdAt < now
    {
      assert before[k] in before;
    }
  }

  /**
   The end-to-end summary scenario: five meals of one session created in turn
   with distinct timestamps (Pizza off, Salad on, Donut off, herbs on,
   Creatine on). Every order the sorted query may return yields 5, 3, 2, 2.
   */
  lemma InfoOfTestHistory(t: Table, session: SessionId, ordered: seq<Meal>)
    requires StrictlySortedByCreatedAt(List(t, session))
    requires Flags(List(t, session)) == [false, true, false, true, true]
    requires multiset(ordered) == multiset(List(t, session))
    requires SortedByCreatedAt(ordered)
    ensures Summarize(ordered) == Summary(5, 3, 2, 2)
  {
    SortedOrderIsUnique(List(t, session), ordered);
    SummaryOfTestHistory(ordered);
  }

  /** Rows that all share one timestamp are sorted in every order. */
  lemma SameInstantIsSorted(ms: seq<Meal>, instant: Timestamp)
    requires forall m :: m in ms ==> m.createdAt == instant
    ensures SortedByCreatedAt(ms)
  {
    forall j, k | 0 <= j < k < |ms|
      ensures ms[j].createdAt <= ms[k].createdAt
    {
      assert ms[j] in ms && ms[k] in ms;
    }
  }

  /**
   With tied timestamps the sorted query does not fix the order, and the best
   sequence depends on which order it picks: two on-diet meals and one off-diet
   meal logged at the same instant give 2 in one valid order and 1 in another.
   */
  lemma TiedTimestampsLeaveStreakOpen(session: SessionId) returns (a: seq<Meal>, b: seq<Meal>)
    ensures multiset(a) == multiset(b)
    ensures SortedByCreatedAt(a) && SortedByCreatedAt(b)
    ensures Summarize(a).bestSequenceOfMealsOnDiet == 2
    ensures Summarize(b).bestSequenceOfMealsOnDiet == 1
  {
    var x := Meal("x", "Salad", "", true, session, 0);
    var y := Meal("y", "herbs", "", true, session, 0);
    var z := Meal("z", "Donut", "", false, session, 0);
    a, b := [z, x, y], [x, z, y];
    assert multiset(a) == multiset(b);
    SameInstantIsSorted(a, 0);
    SameInstantIsSorted(b, 0);
    assert Flags(a) == [false, true, true];
    assert Flags(b) == [true, false, true];
    SummaryCountsTrailingRun(a);
    SummaryOfSplitRun(b);
  }
}
