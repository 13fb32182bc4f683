/**
 * Argument handling of the `clear` command (main.py:430-447) and target
 * resolution of the `unban` command (main.py:284-298). The purge and the
 * unban themselves are platform calls and are not part of this module.
 */
module Moderation {
  import opened Wrappers
  import opened Text
  import opened PyInt

  /** The most messages one `clear` asks the platform to look at. */
  const MaxClear: int := 100

  /** The first, "member", slot of `clear`: empty, a member, or the number the caller meant as the amount. */
  datatype MemberSlot = NoMember | MemberArg(user: UserId) | IntArg(n: int)

  datatype ClearRequest =
    | ClearInvalidUsage
    | Purge(limit: int, filter: MemberSlot)   // `channel.purge(limit=limit, check=...)`

  /** `if amount > 100: amount = 100`: a cap from above only, with no lower bound. */
  function ClampAmount(amount: int): (r: int)
    ensures r <= MaxClear
    ensures amount > MaxClear ==> r == MaxClear
    ensures amount <= MaxClear ==> r == amount
  {
    if amount > MaxClear then MaxClear else amount
  }

  /** How `clear` reads its two arguments. */
  function ClearCommand(member: MemberSlot, amount: Option<int>): (r: ClearRequest)
    ensures r == ClearInvalidUsage <==> amount.None? && !member.IntArg?
    ensures amount.None? && member.IntArg? ==> r == Purge(ClampAmount(member.n), NoMember)
    ensures amount.Some? ==> r == Purge(ClampAmount(amount.value), member)
    ensures r.Purge? ==> r.limit <= MaxClear
  {
    if amount.None? then
      if member.IntArg? then Purge(ClampAmount(member.n), NoMember) else ClearInvalidUsage
    else
      Purge(ClampAmount(amount.value), member)
  }

  /**
   * The `check` predicate handed to the purge. `if member:` is Python
   * truthiness: a member is always true, and an integer left in the slot is
   * true unless it is 0; an integer is never equal to a message author.
   */
  predicate PurgeMatches(filter: MemberSlot, author: UserId) {
    match filter
    case NoMember => true
    case MemberArg(user) => author == user
    case IntArg(n) => n == 0
  }

  /** A purge for a member matches exactly that member's messages; one without a member matches every message. */
  lemma ClearFilter(member: MemberSlot, amount: Option<int>, author: UserId)
    requires ClearCommand(member, amount).Purge?
    ensures member.MemberArg? ==> (PurgeMatches(ClearCommand(member, amount).filter, author) <==> author == member.user)
    ensures member.NoMember? ==> PurgeMatches(ClearCommand(member, amount).filter, author)
    ensures amount.None? ==> PurgeMatches(ClearCommand(member, amount).filter, author)
  {
  }

  /** One entry of `guild.bans()`: the banned user's id and `str(user)`. */
  datatype BanEntry = BanEntry(user: UserId, tag: string)

  datatype UnbanTarget =
    | UnbanInvalidUsage
    | ById(id: int)                     // `discord.Object(id=int(text))`, not checked against the bans
    | ByEntry(index: nat, user: UserId) // the first ban entry whose name matches
    | UserNotFound

  /**
   * The target of `unban`: an integer is taken as an id outright; anything
   * else is searched for, case-insensitively, among the ban entries in order.
   */
  method ResolveUnban(text: string, bans: seq<BanEntry>) returns (target: UnbanTarget)
    ensures text == [] <==> target == UnbanInvalidUsage
    ensures text != [] && ParseInt(text).Some? ==> target == ById(ParseInt(text).value)
    ensures text != [] && ParseInt(text).None? ==> target == FindBan(text, bans)
  {
    if text == [] {
      return UnbanInvalidUsage;
    }
    var id := ParseInt(text);
    if id.Some? {
      return ById(id.value);
    }
    target := SearchBans(text, bans);
  }

  /** The first ban entry whose name equals the text ignoring case, else "user not found". */
  function FindBan(text: string, bans: seq<BanEntry>): (target: UnbanTarget)
    ensures target.ByEntry? || target == UserNotFound
    ensures target.ByEntry? ==>
              && target.index < |bans|
              && bans[target.index].user == target.user
              && EqualsIgnoringCase(text, bans[target.index].tag)
              && forall j :: 0 <= j < target.index ==> !EqualsIgnoringCase(text, bans[j].tag)
    ensures target == UserNotFound <==> forall j :: 0 <= j < |bans| ==> !EqualsIgnoringCase(text, bans[j].tag)
  {
    if bans == [] then UserNotFound
    else if EqualsIgnoringCase(text, bans[0].tag) then ByEntry(0, bans[0].user)
    else
      var rest := bans[1..];
      var later := FindBan(text, rest);
      assert forall j :: 1 <= j < |bans| ==> bans[j] == rest[j - 1];
      if later.ByEntry? then ByEntry(later.index + 1, later.user) else UserNotFound
  }

  /** The `for ban_entry in banned_users` loop, which stops at the first match. */
  method SearchBans(text: string, bans: seq<BanEntry>) returns (target: UnbanTarget)
    ensures target == FindBan(text, bans)
  {
    target := UserNotFound;
    var i := 0;
    while i < |bans|
      invariant 0 <= i <= |bans|
      invariant target == UserNotFound
      invariant forall j :: 0 <= j < i ==> !EqualsIgnoringCase(text, bans[j].tag)
    {
      if EqualsIgnoringCase(text, bans[i].tag) {
        target := ByEntry(i, bans[i].user);
        break;
      }
      i := i + 1;
    }
  }
}
