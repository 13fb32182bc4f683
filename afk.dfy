/**
 * The AFK tracker (main.py:147-179, 194-212, 233-243): a per-user record in a
 * key-value collection, a nickname marker applied on entry and removed on
 * exit, and the notices the bot posts when AFK users speak or are mentioned.
 */
module Afk {
  import opened Wrappers
  import opened Text

  /** A guild member as the bot sees it: the display name is the nick when one is set, else the account name. */
  datatype Member = Member(id: UserId, accountName: string, nick: Option<string>, bot: bool) {
    function DisplayName(): string {
      nick.GetOr(accountName)
    }
  }

  /**
   * `member.edit(nick=...)`. The platform either applies it or refuses with
   * `Forbidden`, which the bot swallows; `renameAllowed` is that answer.
   */
  function Renamed(m: Member, nick: string, renameAllowed: bool): (m': Member)
    ensures m'.id == m.id && m'.accountName == m.accountName && m'.bot == m.bot
    ensures renameAllowed ==> m'.DisplayName() == nick
    ensures !renameAllowed ==> m' == m
  {
    if renameAllowed then m.(nick := Some(nick)) else m
  }

  const AfkPrefix: string := "[AFK] "
  /** The platform's longest nickname. */
  const MaxNickLength: nat := 32

  /** The nickname `set_afk` asks for: the marker and the current name, cut to 32 characters. */
  function AfkNick(displayName: string): (r: string)
    ensures |r| <= MaxNickLength
    ensures |r| == if |AfkPrefix + displayName| <= MaxNickLength then |AfkPrefix + displayName| else MaxNickLength
    ensures |r| <= |AfkPrefix + displayName| && r == (AfkPrefix + displayName)[..|r|]
    ensures r == AfkPrefix + displayName <==> |AfkPrefix + displayName| <= MaxNickLength
    ensures StartsWith(r, "[AFK]")
  {
    var full := AfkPrefix + displayName;
    if |full| > MaxNickLength then full[..MaxNickLength] else full
  }

  /** The stored document: the reason and the display name at the time the user went AFK. */
  datatype AfkRecord = AfkRecord(reason: string, originalNick: string)

  /** The AFK collection, keyed by user id. */
  type AfkStore = map<UserId, AfkRecord>

  /** What `is_afk` returns: the stored reason, or `None` without a record. */
  function Lookup(s: AfkStore, id: UserId): (r: Option<string>)
    ensures r.Some? <==> id in s
    ensures r.Some? ==> r.value == s[id].reason
  {
    if id in s then Some(s[id].reason) else None
  }

  /** Python truthiness of `is_afk`'s result: a record whose reason is not empty. */
  predicate Truthy(r: Option<string>) {
    r.Some? && r.value != ""
  }

  /** The upsert of `set_afk`: overwrites the user's record, leaves every other user's alone. */
  function SetAfkStore(s: AfkStore, user: Member, reason: string): (r: AfkStore)
    ensures r.Keys == s.Keys + {user.id}
    ensures r[user.id] == AfkRecord(reason, user.DisplayName())
    ensures forall id :: id in s && id != user.id ==> r[id] == s[id]
  {
    s[user.id := AfkRecord(reason, user.DisplayName())]
  }

  /** The `delete_one` of `remove_afk`: drops the user's record, a no-op without one. */
  function RemoveAfkStore(s: AfkStore, id: UserId): (r: AfkStore)
    ensures r.Keys == s.Keys - {id}
    ensures forall other :: other in r ==> r[other] == s[other]
    ensures id !in s ==> r == s
  {
    s - {id}
  }

  /**
   * The member after `remove_afk`: renamed back to the stored nick only when
   * there is a record and the current display name starts with `[AFK]`.
   */
  function RestoredMember(s: AfkStore, user: Member, renameAllowed: bool): (m: Member)
    ensures user.id !in s ==> m == user
    ensures user.id in s && StartsWith(user.DisplayName(), "[AFK]") && renameAllowed ==>
              m.DisplayName() == s[user.id].originalNick
    ensures !StartsWith(user.DisplayName(), "[AFK]") || !renameAllowed ==> m == user
  {
    if user.id in s && StartsWith(user.DisplayName(), "[AFK]") then
      Renamed(user, s[user.id].originalNick, renameAllowed)
    else
      user
  }

  /** The reason `afk` stores when it is given none. */
  const DefaultAfkReason: string := "No reason given."

  /** The collection after the `afk` command: off when `is_afk` is truthy, on otherwise. */
  function AfkToggled(s: AfkStore, user: Member, reason: string): (r: AfkStore)
    ensures Truthy(Lookup(s, user.id)) ==> user.id !in r
    ensures !Truthy(Lookup(s, user.id)) ==> user.id in r && r[user.id] == AfkRecord(reason, user.DisplayName())
    ensures forall id :: id != user.id ==> (id in r <==> id in s)
    ensures forall id :: id in r && id != user.id ==> r[id] == s[id]
  {
    if Truthy(Lookup(s, user.id)) then RemoveAfkStore(s, user.id) else SetAfkStore(s, user, reason)
  }

  datatype Notice =
    | WelcomeBack(user: UserId)                 // "Welcome back, ... Your AFK status has been removed."
    | NowAfk(user: UserId, reason: string)      // "... is now AFK. Reason: ..."
    | IsAfkNotice(user: UserId, reason: string) // "... is currently AFK. Reason: ..."

  /** The notice for one mentioned member: only an AFK member who is not the author gets one. */
  function MentionNotice(s: AfkStore, author: UserId, m: Member): seq<Notice> {
    var r := Lookup(s, m.id);
    if Truthy(r) && m.id != author then [IsAfkNotice(m.id, r.value)] else []
  }

  /** The notices of the `message.mentions` loop, in mention order. */
  function AfkMentions(s: AfkStore, author: UserId, mentions: seq<Member>): (r: seq<Notice>)
    ensures |r| <= |mentions|
    ensures forall n :: n in r ==>
              n.IsAfkNotice? && n.user != author && n.user in s && s[n.user].reason == n.reason && n.reason != ""
    ensures forall n :: n in r ==> exists k :: 0 <= k < |mentions| && mentions[k].id == n.user
  {
    if mentions == [] then []
    else
      var init := mentions[..|mentions| - 1];
      assert forall k :: 0 <= k < |init| ==> init[k] == mentions[k];
      AfkMentions(s, author, init) + MentionNotice(s, author, mentions[|mentions| - 1])
  }

  /** Every mentioned AFK member other than the author is reported. */
  lemma {:induction false} AfkMentionsComplete(s: AfkStore, author: UserId, mentions: seq<Member>, k: nat)
    requires k < |mentions|
    requires Truthy(Lookup(s, mentions[k].id)) && mentions[k].id != author
    ensures IsAfkNotice(mentions[k].id, s[mentions[k].id].reason) in AfkMentions(s, author, mentions)
  {
    var front := mentions[..|mentions| - 1];
    if k < |mentions| - 1 {
      assert front[k] == mentions[k];
      AfkMentionsComplete(s, author, front, k);
    }
  }

  /** Notices follow mention order: reporting a concatenation of mention lists concatenates the reports. */
  lemma {:induction false} AfkMentionsAppend(s: AfkStore, author: UserId, xs: seq<Member>, ys: seq<Member>)
    ensures AfkMentions(s, author, xs + ys) == AfkMentions(s, author, xs) + AfkMentions(s, author, ys)
  {
    if ys == [] {
      assert xs + ys == xs;
    } else {
      var ys' := ys[..|ys| - 1];
      var tail := MentionNotice(s, author, ys[|ys| - 1]);
      assert (xs + ys)[..|xs + ys| - 1] == xs + ys';
      assert (xs + ys)[|xs + ys| - 1] == ys[|ys| - 1];
      calc {
        AfkMentions(s, author, xs + ys);
        AfkMentions(s, author, xs + ys') + tail;
        { AfkMentionsAppend(s, author, xs, ys'); }
        AfkMentions(s, author, xs) + AfkMentions(s, author, ys') + tail;
        AfkMentions(s, author, xs) + (AfkMentions(s, author, ys') + tail);
      }
    }
  }

  /** The author's own record never affects the mention notices, so clearing it first changes none. */
  lemma {:induction false} AfkMentionsIgnoreAuthor(s: AfkStore, author: UserId, mentions: seq<Member>)
    ensures AfkMentions(RemoveAfkStore(s, author), author, mentions) == AfkMentions(s, author, mentions)
  {
    if mentions != [] {
      AfkMentionsIgnoreAuthor(s, author, mentions[..|mentions| - 1]);
      var last := mentions[|mentions| - 1];
      if last.id != author {
        assert Lookup(RemoveAfkStore(s, author), last.id) == Lookup(s, last.id);
      }
    }
  }

  /** Entering AFK and later leaving it gives back the name captured on entry, even if the name changed in between. */
  lemma SetThenRemoveRestoresNick(s: AfkStore, user: Member, reason: string, later: Member)
    requires later.id == user.id && StartsWith(later.DisplayName(), "[AFK]")
    ensures RestoredMember(SetAfkStore(s, user, reason), later, true).DisplayName() == user.DisplayName()
    ensures RemoveAfkStore(SetAfkStore(s, user, reason), user.id) == RemoveAfkStore(s, user.id)
  {
  }

  /**
   * The `afk` command taken on its own: from no record, two runs leave no
   * record, provided the first reason is not empty (the default is not).
   * Sent as messages, the second run never reaches this branch: see
   * `AfkMessageAlwaysSets`.
   */
  lemma AfkTwiceClears(s: AfkStore, user: Member, reason: string, later: Member, reason2: string)
    requires !Truthy(Lookup(s, user.id))
    requires reason != ""
    requires later.id == user.id
    ensures AfkToggled(AfkToggled(s, user, reason), later, reason2) == RemoveAfkStore(s, user.id)
  {
    var once := AfkToggled(s, user, reason);
    assert once == SetAfkStore(s, user, reason);
    assert Truthy(Lookup(once, later.id));
  }

  /** With an empty reason the record is falsy: a second `afk` overwrites it instead of clearing it. */
  lemma AfkEmptyReasonSticks(s: AfkStore, user: Member, later: Member, reason2: string)
    requires later.id == user.id
    ensures later.id in AfkToggled(AfkToggled(s, user, ""), later, reason2)
  {
  }

  /**
   * `on_message` runs before command dispatch, so an AFK author who sends the
   * `afk` command is first cleared and then set AFK again, with the new reason.
   */
  lemma AfkCommandWhileAfkResets(s: AfkStore, user: Member, reason: string, now: Member)
    requires Truthy(Lookup(s, user.id)) && now.id == user.id
    ensures var cleared := RemoveAfkStore(s, user.id);
            AfkToggled(cleared, now, reason) == SetAfkStore(s, now, reason)
  {
    var cleared := RemoveAfkStore(s, user.id);
    assert !Truthy(Lookup(cleared, now.id));
    assert SetAfkStore(cleared, now, reason) == SetAfkStore(s, now, reason);
  }

  /** The collection after the AFK part of `on_message`: a truthy record of a human author is deleted. */
  function OnMessageStore(s: AfkStore, author: Member): (r: AfkStore)
    ensures !author.bot && Truthy(Lookup(s, author.id)) ==> r == RemoveAfkStore(s, author.id)
    ensures author.bot || !Truthy(Lookup(s, author.id)) ==> r == s
    ensures author.id in r ==> !Truthy(Lookup(r, author.id)) || author.bot
  {
    if !author.bot && Truthy(Lookup(s, author.id)) then RemoveAfkStore(s, author.id) else s
  }

  /**
   * An `afk` message from a human always ends with the author AFK: `on_message`
   * clears a truthy record before the command runs, so the command's toggle-off
   * branch is never taken. The stored original nick is the display name of the
   * author object the command sees; if that object still shows the old "[AFK]"
   * nickname, that name is what is stored.
   */
  lemma AfkMessageAlwaysSets(s: AfkStore, user: Member, reason: string)
    requires !user.bot
    ensures AfkToggled(OnMessageStore(s, user), user, reason) == SetAfkStore(s, user, reason)
    ensures !Truthy(Lookup(OnMessageStore(s, user), user.id))
  {
    var cleared := OnMessageStore(s, user);
    assert !Truthy(Lookup(cleared, user.id));
    assert SetAfkStore(cleared, user, reason) == SetAfkStore(s, user, reason);
  }

  /** The AFK collection, and the operations of main.py over it. */
  class AfkTracker {
    var records: AfkStore

    constructor ()
      ensures records == map[]
    {
      records := map[];
    }

    /** `is_afk`: a read-only lookup. */
    method IsAfk(user: Member) returns (reason: Option<string>)
      ensures reason.Some? <==> user.id in records
      ensures reason.Some? ==> reason.value == records[user.id].reason
    {
      if user.id in records {
        reason := Some(records[user.id].reason);
      } else {
        reason := None;
      }
    }

    /** `set_afk`: upsert the record, then try to put the marker in the nickname. */
    method SetAfk(user: Member, reason: string, renameAllowed: bool) returns (user': Member)
      modifies this
      ensures records == SetAfkStore(old(records), user, reason)
      ensures user' == Renamed(user, AfkNick(user.DisplayName()), renameAllowed)
    {
      var currentNick := user.DisplayName();
      records := records[user.id := AfkRecord(reason, currentNick)];
      var newNick := AfkPrefix + currentNick;
      if |newNick| > MaxNickLength {
        newNick := newNick[..MaxNickLength];
      }
      user' := Renamed(user, newNick, renameAllowed);
    }

    /** `remove_afk`: with a record, maybe restore the nick, then delete the record whatever the rename did. */
    method RemoveAfk(user: Member, renameAllowed: bool) returns (user': Member)
      modifies this
      ensures records == RemoveAfkStore(old(records), user.id)
      ensures user' == RestoredMember(old(records), user, renameAllowed)
    {
      user' := user;
      if user.id in records {
        var originalNick := records[user.id].originalNick;
        if StartsWith(user.DisplayName(), "[AFK]") {
          user' := Renamed(user, originalNick, renameAllowed);
        }
        records := records - {user.id};
      }
    }

    /**
     * The `afk` command: leave AFK when `is_afk` is truthy, enter it otherwise.
     * Without a reason argument the reason is "No reason given.".
     */
    method AfkCommand(user: Member, reason: Option<string>, renameAllowed: bool) returns (user': Member, notice: Notice)
      modifies this
      ensures records == AfkToggled(old(records), user, reason.GetOr(DefaultAfkReason))
      ensures Truthy(Lookup(old(records), user.id)) ==>
                notice == WelcomeBack(user.id) && user' == RestoredMember(old(records), user, renameAllowed)
      ensures !Truthy(Lookup(old(records), user.id)) ==>
                && notice == NowAfk(user.id, reason.GetOr(DefaultAfkReason))
                && user' == Renamed(user, AfkNick(user.DisplayName()), renameAllowed)
    {
      var text := reason.GetOr(DefaultAfkReason);
      var current := IsAfk(user);
      if Truthy(current) {
        user' := RemoveAfk(user, renameAllowed);
        notice := WelcomeBack(user.id);
      } else {
        user' := SetAfk(user, text, renameAllowed);
        notice := NowAfk(user.id, text);
      }
    }

    /** The loop over `message.mentions`: one notice per AFK member other than the author. */
    method MentionNotices(author: UserId, mentions: seq<Member>) returns (notices: seq<Notice>)
      ensures notices == AfkMentions(records, author, mentions)
    {
      notices := [];
      var i := 0;
      while i < |mentions|
        invariant 0 <= i <= |mentions|
        invariant notices == AfkMentions(records, author, mentions[..i])
      {
        var member := mentions[i];
        var reason := IsAfk(member);
        if Truthy(reason) && member.id != author {
          notices := notices + [IsAfkNotice(member.id, reason.value)];
        }
        assert mentions[..i + 1][..i] == mentions[..i];
        i := i + 1;
      }
      assert mentions[..i] == mentions;
    }

    /**
     * The AFK part of `on_message`: nothing for bots; a returning AFK author
     * is cleared and welcomed back; then the mentioned AFK members are reported.
     */
    method OnMessage(author: Member, mentions: seq<Member>, renameAllowed: bool)
      returns (author': Member, notices: seq<Notice>)
      modifies this
      ensures records == OnMessageStore(old(records), author)
      ensures author.bot ==> records == old(records) && author' == author && notices == []
      ensures !author.bot && Truthy(Lookup(old(records), author.id)) ==>
                && records == RemoveAfkStore(old(records), author.id)
                && author' == RestoredMember(old(records), author, renameAllowed)
                && notices == [WelcomeBack(author.id)] + AfkMentions(old(records), author.id, mentions)
      ensures !author.bot && !Truthy(Lookup(old(records), author.id)) ==>
                && records == old(records)
                && author' == author
                && notices == AfkMentions(old(records), author.id, mentions)
    {
      author' := author;
      notices := [];
      if author.bot {
        return;
      }
      var afkReason := IsAfk(author);
      if Truthy(afkReason) {
        author' := RemoveAfk(author, renameAllowed);
        notices := [WelcomeBack(author.id)];
      }
      var mentioned := MentionNotices(author.id, mentions);
      AfkMentionsIgnoreAuthor(old(records), author.id, mentions);
      notices := notices + mentioned;
    }
  }
}
