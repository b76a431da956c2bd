/** Registration tokens: the `registration_tokens` table and the operations on
    it. A token is active while unused and unexpired, then becomes used (by
    registration) or expired (by time alone); only an unused token can be
    deleted. The functions below give the meaning of each operation on the
    table's rows; `TokenStore` holds the table and its methods apply them. */
module Tokens {
  import opened Types
  import opened Users

  const MsPerDay := 86_400_000
  const DefaultExpiryDays := 7

  /** `isTokenValid`: not used and not yet expired. */
  predicate IsTokenValid(t: TokenRow, now: int) {
    !t.used && t.expiresAt > now
  }

  datatype TokenFilter = All | Active | Used | Expired

  /** The WHERE clause `listTokens` chooses for each filter. */
  function Matches(f: TokenFilter, t: TokenRow, now: int): (r: bool)
    ensures f == All ==> r
    ensures f == Active ==> (r <==> IsTokenValid(t, now))
    ensures f == Used ==> (r <==> t.used)
    ensures f == Expired ==> (r <==> !t.used && !IsTokenValid(t, now))
  {
    match f
    case All => true
    case Active => !t.used && t.expiresAt > now
    case Used => t.used
    case Expired => !t.used && t.expiresAt <= now
  }

  /** Every row passes exactly one of the active, used and expired filters. */
  lemma FiltersClassify(t: TokenRow, now: int)
    ensures (if Matches(Active, t, now) then 1 else 0) + (if Matches(Used, t, now) then 1 else 0)
          + (if Matches(Expired, t, now) then 1 else 0) == 1
  {
  }

  predicate UniqueIds(rows: seq<TokenRow>) {
    forall i, j | 0 <= i < j < |rows| :: rows[i].id != rows[j].id
  }

  predicate UniqueTokens(rows: seq<TokenRow>) {
    forall i, j | 0 <= i < j < |rows| :: rows[i].token != rows[j].token
  }

  /** `used_by` and `used_at` are set exactly when `used` is. */
  predicate ConsistentUse(t: TokenRow) {
    (t.used ==> t.usedBy.Some? && t.usedAt.Some?) && (!t.used ==> t.usedBy.None? && t.usedAt.None?)
  }

  /** The invariant of the table: ids are below the serial counter and no id
      or token value occurs twice. */
  predicate WellFormedTokens(rows: seq<TokenRow>, nextId: int) {
    && UniqueIds(rows)
    && UniqueTokens(rows)
    && (forall i | 0 <= i < |rows| :: rows[i].id < nextId && ConsistentUse(rows[i]))
  }

  // ---------------------------------------------------------------- lookup

  /** `getTokenByValue`: the first row whose token is `value`, or none. */
  function FindToken(rows: seq<TokenRow>, value: string): (r: Option<TokenRow>)
    ensures r.Some? ==> r.value in rows && r.value.token == value
    ensures r.None? <==> forall i | 0 <= i < |rows| :: rows[i].token != value
  {
    if rows == [] then None
    else if rows[0].token == value then Some(rows[0])
    else FindToken(rows[1..], value)
  }

  /** With unique token values, the lookup returns the one row holding that value. */
  lemma {:induction false} FindTokenUnique(rows: seq<TokenRow>, i: int)
    requires UniqueTokens(rows) && 0 <= i < |rows|
    ensures FindToken(rows, rows[i].token) == Some(rows[i])
  {
    if i > 0 {
      assert rows[0].token != rows[i].token;
      assert rows[1..][i - 1] == rows[i];
      FindTokenUnique(rows[1..], i - 1);
    }
  }

  // ---------------------------------------------------------------- insert

  /** The row `createToken` inserts: unused, created now, expiring the given
      number of days later. */
  function NewTokenRow(id: int, value: string, createdBy: int, expiresInDays: int, now: int): TokenRow {
    TokenRow(id, value, now + expiresInDays * MsPerDay, false, None, None, createdBy, now)
  }

  /** Inserting a row with a fresh value and the next id keeps the table well
      formed, and the new row is what a lookup of its value finds. */
  lemma InsertToken(rows: seq<TokenRow>, nextId: int, t: TokenRow)
    requires WellFormedTokens(rows, nextId)
    requires FindToken(rows, t.token).None?
    requires t.id == nextId && ConsistentUse(t)
    ensures WellFormedTokens(rows + [t], nextId + 1)
    ensures FindToken(rows + [t], t.token) == Some(t)
  {
    var r := rows + [t];
    forall i, j | 0 <= i < j < |r| ensures r[i].id != r[j].id && r[i].token != r[j].token {
      assert r[i] == rows[i];
      if j == |rows| {
        assert r[j] == t;
      } else {
        assert r[j] == rows[j];
      }
    }
    FindTokenUnique(r, |rows|);
  }

  /** A row created for `expiresInDays` in [1, 365] is valid when it is created. */
  lemma NewTokenIsValid(id: int, value: string, createdBy: int, expiresInDays: int, now: int, later: int)
    requires 1 <= expiresInDays <= 365
    requires later >= now + expiresInDays * MsPerDay
    ensures IsTokenValid(NewTokenRow(id, value, createdBy, expiresInDays, now), now)
    ensures !IsTokenValid(NewTokenRow(id, value, createdBy, expiresInDays, now), later)
  {
  }

  // ---------------------------------------------------------------- consume

  /** A row after `SET used = true, used_by = usedBy, used_at = NOW()`. */
  function ConsumedRow(t: TokenRow, usedBy: int, now: int): TokenRow {
    t.(used := true, usedBy := Some(usedBy), usedAt := Some(now))
  }

  /** `markTokenAsUsed`: the UPDATE applied to every row whose token is
      `value`. There is no `used = false` condition. */
  function MarkUsed(rows: seq<TokenRow>, value: string, usedBy: int, now: int): (r: seq<TokenRow>)
    ensures |r| == |rows|
  {
    if rows == [] then []
    else
      var first := if rows[0].token == value then ConsumedRow(rows[0], usedBy, now) else rows[0];
      [first] + MarkUsed(rows[1..], value, usedBy, now)
  }

  /** The update changes only the matching rows, and in them only the three
      usage columns. */
  lemma {:induction false} MarkUsedAt(rows: seq<TokenRow>, value: string, usedBy: int, now: int, i: int)
    requires 0 <= i < |rows|
    ensures MarkUsed(rows, value, usedBy, now)[i]
         == if rows[i].token == value then ConsumedRow(rows[i], usedBy, now) else rows[i]
  {
    if i > 0 {
      assert rows[1..][i - 1] == rows[i];
      MarkUsedAt(rows[1..], value, usedBy, now, i - 1);
    }
  }

  lemma MarkUsedPointwise(rows: seq<TokenRow>, value: string, usedBy: int, now: int)
    ensures forall i | 0 <= i < |rows| ::
      (MarkUsed(rows, value, usedBy, now)[i]
         == if rows[i].token == value then ConsumedRow(rows[i], usedBy, now) else rows[i])
  {
    forall i | 0 <= i < |rows| ensures MarkUsed(rows, value, usedBy, now)[i]
         == if rows[i].token == value then ConsumedRow(rows[i], usedBy, now) else rows[i] {
      MarkUsedAt(rows, value, usedBy, now, i);
    }
  }

  /** Marking a value no row holds leaves the table as it was. */
  lemma {:induction false} MarkUnknownIsNoOp(rows: seq<TokenRow>, value: string, usedBy: int, now: int)
    requires FindToken(rows, value).None?
    ensures MarkUsed(rows, value, usedBy, now) == rows
  {
    if rows != [] {
      MarkUnknownIsNoOp(rows[1..], value, usedBy, now);
    }
  }

  /** Marking keeps the table well formed. */
  lemma MarkUsedKeepsWellFormed(rows: seq<TokenRow>, nextId: int, value: string, usedBy: int, now: int)
    requires WellFormedTokens(rows, nextId)
    ensures WellFormedTokens(MarkUsed(rows, value, usedBy, now), nextId)
  {
    var r := MarkUsed(rows, value, usedBy, now);
    MarkUsedPointwise(rows, value, usedBy, now);
    assert forall i | 0 <= i < |rows| :: r[i].id == rows[i].id && r[i].token == rows[i].token;
  }

  /** Afterwards the row with that value is used, by `usedBy`, at `now`, and
      so no longer valid; a value no row holds is still not found. */
  lemma MarkUsedConsumes(rows: seq<TokenRow>, value: string, usedBy: int, now: int)
    requires UniqueTokens(rows)
    ensures FindToken(rows, value).Some? ==>
      FindToken(MarkUsed(rows, value, usedBy, now), value) == Some(ConsumedRow(FindToken(rows, value).value, usedBy, now))
    ensures FindToken(rows, value).None? ==> FindToken(MarkUsed(rows, value, usedBy, now), value).None?
  {
    var r := MarkUsed(rows, value, usedBy, now);
    if FindToken(rows, value).Some? {
      var i :| 0 <= i < |rows| && rows[i] == FindToken(rows, value).value;
      MarkUsedPointwise(rows, value, usedBy, now);
      assert UniqueTokens(r) by {
        assert forall k | 0 <= k < |rows| :: r[k].token == rows[k].token;
      }
      FindTokenUnique(rows, i);
      FindTokenUnique(r, i);
    } else {
      MarkUnknownIsNoOp(rows, value, usedBy, now);
    }
  }

  /** A second marking of the same value overwrites the first one's `used_by`
      and `used_at`: nothing guards against consuming a token twice. */
  lemma {:induction false} MarkUsedTwice(rows: seq<TokenRow>, value: string, a: int, b: int, t1: int, t2: int)
    ensures MarkUsed(MarkUsed(rows, value, a, t1), value, b, t2) == MarkUsed(rows, value, b, t2)
  {
    if rows != [] {
      MarkUsedTwice(rows[1..], value, a, b, t1, t2);
    }
  }

  // ---------------------------------------------------------------- delete

  /** The rows `DELETE ... WHERE id = $1 AND used = false` removes. */
  predicate Deletable(t: TokenRow, id: int) {
    t.id == id && !t.used
  }

  /** `deleteToken`'s result: some row was removed. */
  predicate HasDeletable(rows: seq<TokenRow>, id: int) {
    exists i | 0 <= i < |rows| :: Deletable(rows[i], id)
  }

  /** The table after `deleteToken(id)`. */
  function DeleteUnused(rows: seq<TokenRow>, id: int): (r: seq<TokenRow>)
    ensures |r| <= |rows|
  {
    if rows == [] then []
    else (if Deletable(rows[0], id) then [] else [rows[0]]) + DeleteUnused(rows[1..], id)
  }

  /** The delete keeps exactly the rows it may not remove, used rows among them. */
  lemma {:induction false} DeleteUnusedMembers(rows: seq<TokenRow>, id: int)
    ensures forall t :: t in DeleteUnused(rows, id) <==> t in rows && !Deletable(t, id)
  {
    if rows != [] {
      DeleteUnusedMembers(rows[1..], id);
      assert forall t :: t in rows <==> t == rows[0] || t in rows[1..];
    }
  }

  /** Deleting an id that has no unused row changes nothing. */
  lemma {:induction false} DeleteNothing(rows: seq<TokenRow>, id: int)
    requires !HasDeletable(rows, id)
    ensures DeleteUnused(rows, id) == rows
  {
    if rows != [] {
      assert !Deletable(rows[0], id);
      assert !HasDeletable(rows[1..], id) by {
        forall i | 0 <= i < |rows| - 1 ensures !Deletable(rows[1..][i], id) {
          assert rows[1..][i] == rows[i + 1];
        }
      }
      DeleteNothing(rows[1..], id);
      assert rows == [rows[0]] + rows[1..];
    }
  }

  /** With unique ids, deleting removes exactly the one unused row with that
      id and keeps the others in order. */
  lemma {:induction false} DeleteExactlyOne(rows: seq<TokenRow>, id: int, i: int)
    requires UniqueIds(rows) && 0 <= i < |rows| && Deletable(rows[i], id)
    ensures DeleteUnused(rows, id) == rows[..i] + rows[i + 1..]
  {
    if i == 0 {
      assert !HasDeletable(rows[1..], id) by {
        forall k | 0 <= k < |rows| - 1 ensures !Deletable(rows[1..][k], id) {
          assert rows[1..][k] == rows[k + 1];
        }
      }
      DeleteNothing(rows[1..], id);
    } else {
      assert rows[0].id != id;
      assert rows[1..][i - 1] == rows[i];
      DeleteExactlyOne(rows[1..], id, i - 1);
      assert rows[..i] == [rows[0]] + rows[1..][..i - 1];
      assert rows[i + 1..] == rows[1..][i..];
    }
  }

  /** The rows after the first of a well-formed table are well formed. */
  lemma TailWellFormed(rows: seq<TokenRow>, nextId: int)
    requires rows != [] && WellFormedTokens(rows, nextId)
    ensures WellFormedTokens(rows[1..], nextId)
    ensures forall k | 0 <= k < |rows| - 1 :: rows[1..][k].id != rows[0].id && rows[1..][k].token != rows[0].token
  {
    assert forall k | 0 <= k < |rows| - 1 :: rows[1..][k] == rows[k + 1];
  }

  /** A row that clashes with none of a well-formed table can be put in front. */
  lemma ConsWellFormed(x: TokenRow, rest: seq<TokenRow>, nextId: int)
    requires WellFormedTokens(rest, nextId) && x.id < nextId && ConsistentUse(x)
    requires forall t | t in rest :: t.id != x.id && t.token != x.token
    ensures WellFormedTokens([x] + rest, nextId)
  {
    var r := [x] + rest;
    forall i, j | 0 <= i < j < |r| ensures r[i].id != r[j].id && r[i].token != r[j].token {
      assert r[j] == rest[j - 1];
      if i == 0 {
        assert rest[j - 1] in rest;
      } else {
        assert r[i] == rest[i - 1];
      }
    }
    forall i | 0 <= i < |r| ensures r[i].id < nextId && ConsistentUse(r[i]) {
      if i > 0 {
        assert r[i] == rest[i - 1];
      }
    }
  }

  /** Deleting keeps the table well formed. */
  lemma {:induction false} DeleteKeepsWellFormed(rows: seq<TokenRow>, nextId: int, id: int)
    requires WellFormedTokens(rows, nextId)
    ensures WellFormedTokens(DeleteUnused(rows, id), nextId)
  {
    if rows != [] {
      var x, tail := rows[0], rows[1..];
      TailWellFormed(rows, nextId);
      DeleteKeepsWellFormed(tail, nextId, id);
      DeleteUnusedMembers(tail, id);
      var rest := DeleteUnused(tail, id);
      if !Deletable(x, id) {
        forall t | t in rest ensures t.id != x.id && t.token != x.token {
          var k :| 0 <= k < |tail| && tail[k] == t;
        }
        assert x == rows[0] && 0 < |rows|;
        ConsWellFormed(x, rest, nextId);
        assert DeleteUnused(rows, id) == [x] + rest;
      } else {
        assert DeleteUnused(rows, id) == rest;
      }
    }
  }

  // ---------------------------------------------------------------- listing

  /** The rows a filter selects, in table order. */
  function Select(rows: seq<TokenRow>, f: TokenFilter, now: int): (r: seq<TokenRow>)
    ensures |r| <= |rows|
  {
    if rows == [] then []
    else (if Matches(f, rows[0], now) then [rows[0]] else []) + Select(rows[1..], f, now)
  }

  lemma {:induction false} SelectMembers(rows: seq<TokenRow>, f: TokenFilter, now: int)
    ensures forall t :: t in Select(rows, f, now) <==> t in rows && Matches(f, t, now)
  {
    if rows != [] {
      SelectMembers(rows[1..], f, now);
      assert forall t :: t in rows <==> t == rows[0] || t in rows[1..];
    }
  }

  /** The active, used and expired selections split the table: together they
      hold every row exactly once, and `all` is the whole table. */
  lemma SelectCons(t: TokenRow, rest: seq<TokenRow>, f: TokenFilter, now: int)
    ensures multiset(Select([t] + rest, f, now))
         == (if Matches(f, t, now) then multiset{t} else multiset{}) + multiset(Select(rest, f, now))
  {
    var rows := [t] + rest;
    assert rows[0] == t && rows[1..] == rest;
    var head := if Matches(f, t, now) then [t] else [];
    assert Select(rows, f, now) == head + Select(rest, f, now);
    assert multiset(head + Select(rest, f, now)) == multiset(head) + multiset(Select(rest, f, now));
  }

  lemma {:induction false} SelectAll(rows: seq<TokenRow>, now: int)
    ensures Select(rows, All, now) == rows
  {
    if rows != [] {
      SelectAll(rows[1..], now);
      assert rows == [rows[0]] + rows[1..];
    }
  }

  /** Each row occurs in the three selections together as often as in the table. */
  lemma {:induction false} PartitionCounts(rows: seq<TokenRow>, now: int)
    ensures forall x :: multiset(Select(rows, Active, now))[x] + multiset(Select(rows, Used, now))[x]
                      + multiset(Select(rows, Expired, now))[x] == multiset(rows)[x]
  {
    if rows != [] {
      var t, rest := rows[0], rows[1..];
      PartitionCounts(rest, now);
      assert rows == [t] + rest;
      assert multiset(rows) == multiset{t} + multiset(rest);
      SelectCons(t, rest, Active, now);
      SelectCons(t, rest, Used, now);
      SelectCons(t, rest, Expired, now);
      FiltersClassify(t, now);
    }
  }

  lemma FiltersPartitionTable(rows: seq<TokenRow>, now: int)
    ensures multiset(Select(rows, Active, now)) + multiset(Select(rows, Used, now))
          + multiset(Select(rows, Expired, now)) == multiset(rows)
    ensures Select(rows, All, now) == rows
  {
    SelectAll(rows, now);
    PartitionCounts(rows, now);
  }

  predicate NewestFirst(s: seq<TokenRow>) {
    forall i, j | 0 <= i < j < |s| :: s[i].createdAt >= s[j].createdAt
  }

  /** Insert `t` before the first row that is not newer than it. */
  function InsertByAge(t: TokenRow, s: seq<TokenRow>): (r: seq<TokenRow>)
    ensures multiset(r) == multiset(s) + multiset{t}
  {
    if s == [] || t.createdAt >= s[0].createdAt then [t] + s
    else
      assert s == [s[0]] + s[1..];
      [s[0]] + InsertByAge(t, s[1..])
  }

  /** Inserting keeps every row at or below a bound both `t` and `s` respect. */
  lemma {:induction false} InsertByAgeBelow(t: TokenRow, s: seq<TokenRow>, bound: int)
    requires t.createdAt <= bound && forall i | 0 <= i < |s| :: s[i].createdAt <= bound
    ensures forall i | 0 <= i < |InsertByAge(t, s)| :: InsertByAge(t, s)[i].createdAt <= bound
  {
    if s != [] && t.createdAt < s[0].createdAt {
      assert forall i | 0 <= i < |s| - 1 :: s[1..][i] == s[i + 1];
      InsertByAgeBelow(t, s[1..], bound);
    }
  }

  lemma {:induction false} InsertByAgeSorted(t: TokenRow, s: seq<TokenRow>)
    requires NewestFirst(s)
    ensures NewestFirst(InsertByAge(t, s))
  {
    if s != [] && t.createdAt < s[0].createdAt {
      var tail := s[1..];
      assert NewestFirst(tail) by {
        assert forall i | 0 <= i < |tail| :: tail[i] == s[i + 1];
      }
      InsertByAgeSorted(t, tail);
      assert forall i | 0 <= i < |tail| :: tail[i].createdAt <= s[0].createdAt by {
        assert forall i | 0 <= i < |tail| :: tail[i] == s[i + 1];
      }
      InsertByAgeBelow(t, tail, s[0].createdAt);
      var rest := InsertByAge(t, tail);
      var r := [s[0]] + rest;
      assert InsertByAge(t, s) == r;
      forall i, j | 0 <= i < j < |r| ensures r[i].createdAt >= r[j].createdAt {
        assert r[j] == rest[j - 1];
        if i > 0 {
          assert r[i] == rest[i - 1];
        }
      }
    }
  }

  /** `ORDER BY created_at DESC`, by insertion. */
  function SortNewestFirst(s: seq<TokenRow>): (r: seq<TokenRow>)
    ensures NewestFirst(r)
    ensures multiset(r) == multiset(s)
  {
    if s == [] then []
    else
      var rest := SortNewestFirst(s[1..]);
      InsertByAgeSorted(s[0], rest);
      assert multiset(s) == multiset{s[0]} + multiset(s[1..]) by {
        assert s == [s[0]] + s[1..];
      }
      InsertByAge(s[0], rest)
  }

  /** The rows `listTokens(f)` returns, before the emails are joined in. */
  function ListRows(rows: seq<TokenRow>, f: TokenFilter, now: int): (r: seq<TokenRow>)
    ensures NewestFirst(r)
    ensures multiset(r) == multiset(Select(rows, f, now))
    ensures forall t :: t in r <==> t in rows && Matches(f, t, now)
  {
    var r := SortNewestFirst(Select(rows, f, now));
    SelectMembers(rows, f, now);
    assert forall t :: t in r <==> t in multiset(r);
    assert forall t :: t in Select(rows, f, now) <==> t in multiset(Select(rows, f, now));
    r
  }

  /** A row as the listing shows it, with the issuer's and the consumer's
      emails joined in. */
  function ToSafe(t: TokenRow, users: seq<User>): TokenSafe {
    TokenSafe(t.id, t.token, t.expiresAt, t.used,
      if t.usedBy.Some? then EmailOfUser(users, t.usedBy.value) else None,
      t.usedAt, EmailOfUser(users, t.createdBy), t.createdAt)
  }

  /** `listTokens(f)`. */
  function Listing(rows: seq<TokenRow>, users: seq<User>, f: TokenFilter, now: int): seq<TokenSafe> {
    var s := ListRows(rows, f, now);
    seq(|s|, i requires 0 <= i < |s| => ToSafe(s[i], users))
  }

  lemma ListingLength(rows: seq<TokenRow>, users: seq<User>, f: TokenFilter, now: int)
    ensures |Listing(rows, users, f, now)| == |ListRows(rows, f, now)| == |Select(rows, f, now)|
  {
    var s := ListRows(rows, f, now);
    assert |multiset(s)| == |multiset(Select(rows, f, now))|;
  }

  lemma ListingSound(rows: seq<TokenRow>, users: seq<User>, f: TokenFilter, now: int)
    ensures forall i | 0 <= i < |Listing(rows, users, f, now)| ::
      && ListRows(rows, f, now)[i] in rows
      && Matches(f, ListRows(rows, f, now)[i], now)
      && Listing(rows, users, f, now)[i] == ToSafe(ListRows(rows, f, now)[i], users)
  {
    var s := ListRows(rows, f, now);
    forall i | 0 <= i < |Listing(rows, users, f, now)|
      ensures s[i] in rows && Matches(f, s[i], now) && Listing(rows, users, f, now)[i] == ToSafe(s[i], users)
    {
      assert s[i] in s;
    }
  }

  lemma ListingComplete(rows: seq<TokenRow>, users: seq<User>, f: TokenFilter, now: int)
    ensures forall k | 0 <= k < |rows| && Matches(f, rows[k], now) :: ToSafe(rows[k], users) in Listing(rows, users, f, now)
  {
    var s := ListRows(rows, f, now);
    var r := Listing(rows, users, f, now);
    forall k | 0 <= k < |rows| && Matches(f, rows[k], now) ensures ToSafe(rows[k], users) in r {
      assert rows[k] in rows;
      var i :| 0 <= i < |s| && s[i] == rows[k];
      assert r[i] == ToSafe(rows[k], users);
    }
  }

  /** The listing has one entry per selected row, newest first; each entry is
      a selected row of the table, and every selected row is listed. */
  lemma ListingSpec(rows: seq<TokenRow>, users: seq<User>, f: TokenFilter, now: int)
    ensures |Listing(rows, users, f, now)| == |Select(rows, f, now)|
    ensures forall i, j | 0 <= i < j < |Listing(rows, users, f, now)| ::
      Listing(rows, users, f, now)[i].createdAt >= Listing(rows, users, f, now)[j].createdAt
    ensures forall i | 0 <= i < |Listing(rows, users, f, now)| ::
      && ListRows(rows, f, now)[i] in rows
      && Matches(f, ListRows(rows, f, now)[i], now)
      && Listing(rows, users, f, now)[i] == ToSafe(ListRows(rows, f, now)[i], users)
    ensures forall k | 0 <= k < |rows| && Matches(f, rows[k], now) :: ToSafe(rows[k], users) in Listing(rows, users, f, now)
  {
    ListingLength(rows, users, f, now);
    ListingSound(rows, users, f, now);
    ListingComplete(rows, users, f, now);
    var s := ListRows(rows, f, now);
    var r := Listing(rows, users, f, now);
    assert forall i | 0 <= i < |r| :: r[i].createdAt == s[i].createdAt;
  }

  /** The admin listing never shows a filter's rows out of its class: an
      active listing holds only valid tokens, a used listing only used ones. */
  lemma ListingClasses(rows: seq<TokenRow>, users: seq<User>, now: int)
    ensures forall x | x in Listing(rows, users, Active, now) :: !x.used && x.expiresAt > now
    ensures forall x | x in Listing(rows, users, Used, now) :: x.used
    ensures forall x | x in Listing(rows, users, Expired, now) :: !x.used && x.expiresAt <= now
  {
    ListingSound(rows, users, Active, now);
    ListingSound(rows, users, Used, now);
    ListingSound(rows, users, Expired, now);
  }

  // ---------------------------------------------------------------- the table

  class TokenStore {
    var rows: seq<TokenRow>
    var nextId: int

    ghost predicate Valid()
      reads this
    {
      WellFormedTokens(rows, nextId)
    }

    constructor ()
      ensures Valid() && rows == [] && nextId == 1
    {
      rows := [];
      nextId := 1;
    }

    /** `createToken(createdBy, expiresInDays)`; `value` is the fresh random
        token string and `now` the current time. */
    method CreateToken(createdBy: int, value: string, now: int, expiresInDays: int := DefaultExpiryDays)
      returns (t: TokenRow)
      requires Valid()
      requires FindToken(rows, value).None?
      modifies this
      ensures Valid()
      ensures t == NewTokenRow(old(nextId), value, createdBy, expiresInDays, now)
      ensures rows == old(rows) + [t] && nextId == old(nextId) + 1
      ensures FindToken(rows, value) == Some(t)
    {
      t := NewTokenRow(nextId, value, createdBy, expiresInDays, now);
      InsertToken(rows, nextId, t);
      rows := rows + [t];
      nextId := nextId + 1;
    }

    /** `markTokenAsUsed(value, usedBy)` at time `now`. */
    method MarkTokenAsUsed(value: string, usedBy: int, now: int)
      requires Valid()
      modifies this
      ensures Valid()
      ensures rows == MarkUsed(old(rows), value, usedBy, now) && nextId == old(nextId)
      ensures old(FindToken(rows, value)).Some? ==>
        FindToken(rows, value) == Some(ConsumedRow(old(FindToken(rows, value)).value, usedBy, now))
      ensures old(FindToken(rows, value)).None? ==> rows == old(rows)
    {
      MarkUsedKeepsWellFormed(rows, nextId, value, usedBy, now);
      MarkUsedConsumes(rows, value, usedBy, now);
      if FindToken(rows, value).None? {
        MarkUnknownIsNoOp(rows, value, usedBy, now);
      }
      rows := MarkUsed(rows, value, usedBy, now);
    }

    /** `listTokens(filter)` at time `now`, joining in the emails of `users`:
        the matching rows, newest first, each once. */
    method ListTokens(users: seq<User>, now: int, filter: TokenFilter := Active) returns (r: seq<TokenSafe>)
      ensures r == Listing(rows, users, filter, now)
      ensures |r| == |Select(rows, filter, now)|
      ensures forall i, j | 0 <= i < j < |r| :: r[i].createdAt >= r[j].createdAt
      ensures forall i | 0 <= i < |r| ::
        && ListRows(rows, filter, now)[i] in rows
        && Matches(filter, ListRows(rows, filter, now)[i], now)
        && r[i] == ToSafe(ListRows(rows, filter, now)[i], users)
      ensures forall k | 0 <= k < |rows| && Matches(filter, rows[k], now) :: ToSafe(rows[k], users) in r
    {
      r := Listing(rows, users, filter, now);
      ListingSpec(rows, users, filter, now);
    }

    /** `deleteToken(id)`: true when an unused row with that id was removed. */
    method DeleteToken(id: int) returns (deleted: bool)
      requires Valid()
      modifies this
      ensures Valid()
      ensures deleted <==> HasDeletable(old(rows), id)
      ensures rows == DeleteUnused(old(rows), id) && nextId == old(nextId)
      ensures deleted ==> |rows| == |old(rows)| - 1
      ensures !deleted ==> rows == old(rows)
      ensures forall t | t in old(rows) && t.used :: t in rows
    {
      deleted := HasDeletable(rows, id);
      DeleteKeepsWellFormed(rows, nextId, id);
      DeleteUnusedMembers(rows, id);
      if deleted {
        var i :| 0 <= i < |rows| && Deletable(rows[i], id);
        DeleteExactlyOne(rows, id, i);
      } else {
        DeleteNothing(rows, id);
      }
      rows := DeleteUnused(rows, id);
    }
  }
}
