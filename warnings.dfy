/**
 * The warnings collection of the `warn` and `warns` commands
 * (main.py:372-425): one document per warning, inserted and never removed,
 * listed per guild and user in stored order and numbered from 1.
 */
module Warnings {
  import opened Wrappers

  /** One stored warning; the timestamp is the clock reading the caller supplies. */
  datatype Warning = Warning(guild: GuildId, user: UserId, moderator: UserId, reason: string, timestamp: int)

  /** One line of the `warns` listing ("Warning <number>"). */
  datatype WarningRow = WarningRow(number: nat, warning: Warning)

  /** `to_list(length=100)`: the listing shows at most this many warnings. */
  const MaxListed: nat := 100

  predicate IsFor(w: Warning, guild: GuildId, user: UserId) {
    w.guild == guild && w.user == user
  }

  /** The documents `find({"guild_id": guild, "user_id": user})` yields, in stored order. */
  function Matching(ws: seq<Warning>, guild: GuildId, user: UserId): (r: seq<Warning>)
    ensures |r| <= |ws|
    ensures forall w :: w in r ==> w in ws && IsFor(w, guild, user)
  {
    if ws == [] then []
    else
      var last := ws[|ws| - 1];
      Matching(ws[..|ws| - 1], guild, user) + (if IsFor(last, guild, user) then [last] else [])
  }

  /** Storing more warnings extends each pair's list by exactly its own new ones, at the end. */
  lemma {:induction false} MatchingAppend(xs: seq<Warning>, ys: seq<Warning>, guild: GuildId, user: UserId)
    ensures Matching(xs + ys, guild, user) == Matching(xs, guild, user) + Matching(ys, guild, user)
  {
    if ys == [] {
      assert xs + ys == xs;
    } else {
      var ys' := ys[..|ys| - 1];
      var last := ys[|ys| - 1];
      var tail := if IsFor(last, guild, user) then [last] else [];
      assert (xs + ys)[..|xs + ys| - 1] == xs + ys';
      assert (xs + ys)[|xs + ys| - 1] == last;
      calc {
        Matching(xs + ys, guild, user);
        Matching(xs + ys', guild, user) + tail;
        { MatchingAppend(xs, ys', guild, user); }
        Matching(xs, guild, user) + Matching(ys', guild, user) + tail;
        Matching(xs, guild, user) + (Matching(ys', guild, user) + tail);
      }
    }
  }

  /** Every warning of the pair is in its list: n warnings stored for a pair give a list of n. */
  lemma {:induction false} MatchingAll(ws: seq<Warning>, guild: GuildId, user: UserId)
    requires forall k :: 0 <= k < |ws| ==> IsFor(ws[k], guild, user)
    ensures Matching(ws, guild, user) == ws
  {
    if ws != [] {
      var init := ws[..|ws| - 1];
      var last := ws[|ws| - 1];
      assert IsFor(last, guild, user);
      calc {
        Matching(ws, guild, user);
        Matching(init, guild, user) + [last];
        { MatchingAll(init, guild, user); }
        init + [last];
        ws;
      }
    }
  }

  /** Warnings for other pairs never show up in a pair's list. */
  lemma {:induction false} MatchingNone(ws: seq<Warning>, guild: GuildId, user: UserId)
    requires forall k :: 0 <= k < |ws| ==> !IsFor(ws[k], guild, user)
    ensures Matching(ws, guild, user) == []
  {
    if ws != [] {
      MatchingNone(ws[..|ws| - 1], guild, user);
    }
  }

  /**
   * A run of `warn` calls: the pair they target gains exactly those warnings,
   * in order, so n successful warns add n to its count; a pair none of them
   * targets keeps its list.
   */
  lemma WarnsAccumulate(ws: seq<Warning>, added: seq<Warning>, guild: GuildId, user: UserId)
    requires forall k :: 0 <= k < |added| ==> IsFor(added[k], guild, user)
    ensures Matching(ws + added, guild, user) == Matching(ws, guild, user) + added
    ensures |Matching(ws + added, guild, user)| == |Matching(ws, guild, user)| + |added|
    ensures forall g, u :: !(g == guild && u == user) ==> Matching(ws + added, g, u) == Matching(ws, g, u)
  {
    MatchingAppend(ws, added, guild, user);
    MatchingAll(added, guild, user);
    forall g, u | !(g == guild && u == user)
      ensures Matching(ws + added, g, u) == Matching(ws, g, u)
    {
      MatchingAppend(ws, added, g, u);
      MatchingNone(added, g, u);
    }
  }

  /** The matches in a prefix of the collection are a prefix of all its matches. */
  lemma MatchingPrefix(ws: seq<Warning>, i: nat, guild: GuildId, user: UserId)
    requires i <= |ws|
    ensures Matching(ws, guild, user) == Matching(ws[..i], guild, user) + Matching(ws[i..], guild, user)
  {
    assert ws == ws[..i] + ws[i..];
    MatchingAppend(ws[..i], ws[i..], guild, user);
  }

  datatype WarnReply = WarnInvalidUsage | Warned(warning: Warning)

  datatype WarnsReply = WarnsInvalidUsage | NoWarnings | Listing(rows: seq<WarningRow>)

  class WarningLog {
    /** The collection, in insertion order. */
    var entries: seq<Warning>

    constructor ()
      ensures entries == []
    {
      entries := [];
    }

    /** `warn`: a member and a non-empty reason are required; the warning is appended. */
    method Warn(guild: GuildId, target: Option<UserId>, moderator: UserId, reason: Option<string>, timestamp: int)
      returns (reply: WarnReply)
      modifies this
      ensures target.None? || reason.None? || reason == Some("") ==>
                reply == WarnInvalidUsage && entries == old(entries)
      ensures target.Some? && reason.Some? && reason != Some("") ==>
                && reply == Warned(Warning(guild, target.value, moderator, reason.value, timestamp))
                && entries == old(entries) + [reply.warning]
    {
      if target.None? || reason.None? || reason == Some("") {
        return WarnInvalidUsage;
      }
      var w := Warning(guild, target.value, moderator, reason.value, timestamp);
      entries := entries + [w];
      reply := Warned(w);
    }

    /** `find(...).to_list(length=100)`: the first `MaxListed` warnings of a pair, in stored order. */
    method FindWarnings(guild: GuildId, user: UserId) returns (found: seq<Warning>)
      ensures |found| == if |Matching(entries, guild, user)| < MaxListed then |Matching(entries, guild, user)| else MaxListed
      ensures found == Matching(entries, guild, user)[..|found|]
    {
      found := [];
      var i := 0;
      while i < |entries| && |found| < MaxListed
        invariant 0 <= i <= |entries|
        invariant found == Matching(entries[..i], guild, user)
        invariant |found| <= MaxListed
      {
        assert entries[..i + 1][..i] == entries[..i];
        if IsFor(entries[i], guild, user) {
          found := found + [entries[i]];
        }
        i := i + 1;
      }
      MatchingPrefix(entries, i, guild, user);
    }

    /** The rows of the `warns` listing: the found warnings numbered from 1, as `enumerate(..., 1)` does. */
    method ListWarnings(guild: GuildId, user: UserId) returns (rows: seq<WarningRow>)
      ensures |rows| == if |Matching(entries, guild, user)| < MaxListed then |Matching(entries, guild, user)| else MaxListed
      ensures forall k :: 0 <= k < |rows| ==> rows[k] == WarningRow(k + 1, Matching(entries, guild, user)[k])
    {
      var found := FindWarnings(guild, user);
      rows := [];
      var k := 0;
      while k < |found|
        invariant 0 <= k <= |found|
        invariant |rows| == k
        invariant forall j :: 0 <= j < k ==> rows[j] == WarningRow(j + 1, found[j])
      {
        rows := rows + [WarningRow(k + 1, found[k])];
        k := k + 1;
      }
    }

    /** `warns`: usage reply without a member, a "no warnings" reply for an empty list, else the listing. */
    method Warns(guild: GuildId, target: Option<UserId>) returns (reply: WarnsReply)
      ensures target.None? <==> reply == WarnsInvalidUsage
      ensures target.Some? ==> (reply == NoWarnings <==> Matching(entries, guild, target.value) == [])
      ensures reply.Listing? ==>
                && target.Some?
                && 0 < |reply.rows| <= |Matching(entries, guild, target.value)|
                && |reply.rows| == (if |Matching(entries, guild, target.value)| < MaxListed
                                    then |Matching(entries, guild, target.value)| else MaxListed)
                && forall k :: 0 <= k < |reply.rows| ==>
                     reply.rows[k] == WarningRow(k + 1, Matching(entries, guild, target.value)[k])
    {
      if target.None? {
        return WarnsInvalidUsage;
      }
      var rows := ListWarnings(guild, target.value);
      if rows == [] {
        reply := NoWarnings;
      } else {
        reply := Listing(rows);
      }
    }
  }
}
