/**
 * The per-channel conversation store: for every channel, an ordered message
 * history capped after each push, and the time of the channel's last activity,
 * with a sliding 30-minute expiry applied on read and by a periodic sweep.
 *
 * Times are milliseconds, passed in as `now` where the bot reads the clock.
 * The store's contents are described by the value type `Store` and the
 * functions `Added`, `Read`, `Cleared`, `Initialized` and `Swept`; the class
 * `ConversationStore` keeps the two maps as fields and its methods update them
 * in place exactly as those functions say.
 */
module ConversationManager {
  import opened Wrappers

  /** Number of most recent messages a trim keeps. */
  const MaxHistoryLength: nat := 10

  /** Idle time after which a conversation has expired: 30 minutes, in milliseconds. */
  const MaxConversationAge: int := 30 * 60 * 1000

  /** The bot name used when none is given. */
  const DefaultBotName: string := "Ferret9"

  /**
   * The first sentence of the system prompt after the bot's name; the
   * guideline paragraphs that follow it in the bot are opaque text here.
   */
  const SystemPromptTail: string := ", an AI assistant for developers at F9 Global."

  type ChannelId = string

  datatype Role = System | User | Assistant

  datatype Message = Message(role: Role, content: string)

  /** Both maps of the store: channel -> history, channel -> last activity time. */
  datatype Store = Store(conversations: map<ChannelId, seq<Message>>, lastActivity: map<ChannelId, int>)

  /** What a read returns: the store afterwards and the history handed to the caller. */
  datatype Lookup = Lookup(store: Store, history: seq<Message>)

  /** The content stored for a message. */
  function FormatContent(role: Role, content: string, username: Option<string>): string {
    if role == User && username.Some? && username.value != "" then username.value + ": " + content
    else content
  }

  /**
   * A user message with a non-empty username is stored as "username: content";
   * any other message keeps its content; the content always ends the stored text.
   */
  lemma FormatContentSpec(role: Role, content: string, username: Option<string>)
    ensures var r := FormatContent(role, content, username);
            && |r| >= |content| && r[|r| - |content|..] == content
            && (r != content <==> role == User && username.Some? && username.value != "")
            && (r != content ==> |r| == |username.value| + 2 + |content| && r[..|username.value| + 2] == username.value + ": ")
  {
  }

  predicate HasSystem(h: seq<Message>) {
    exists i :: 0 <= i < |h| && h[i].role == System
  }

  /** The first system message of a history, if there is one. */
  function FindSystem(h: seq<Message>): (r: Option<Message>)
    ensures r.None? <==> !HasSystem(h)
    ensures r.Some? ==> exists i :: 0 <= i < |h| && h[i] == r.value && r.value.role == System &&
                                  forall j :: 0 <= j < i ==> h[j].role != System
  {
    if h == [] then None
    else if h[0].role == System then Some(h[0])
    else
      var r := FindSystem(h[1..]);
      assert forall i :: 0 <= i < |h| - 1 ==> h[1..][i] == h[i + 1];
      r
  }

  /**
   * The history after the trim that follows every push: unchanged up to
   * MaxHistoryLength messages; otherwise its last MaxHistoryLength messages,
   * with the first system message put back in front if the cut removed every
   * system message.
   */
  function Trim(h: seq<Message>): seq<Message> {
    if |h| <= MaxHistoryLength then h
    else
      var kept := h[|h| - MaxHistoryLength..];
      var system := FindSystem(h);
      if system.Some? && !HasSystem(kept) then [system.value] + kept else kept
  }

  function Min(a: int, b: int): int { if a <= b then a else b }

  function Last(h: seq<Message>): Message
    requires h != []
  {
    h[|h| - 1]
  }

  /**
   * A trim keeps the most recent messages in order: the last
   * min(|h|, MaxHistoryLength) messages of h end the result, and at most one
   * message precedes them; nothing is dropped from a short history.
   */
  lemma TrimKeepsRecent(h: seq<Message>)
    ensures var k := Min(|h|, MaxHistoryLength);
            k <= |Trim(h)| <= k + 1 && Trim(h)[|Trim(h)| - k..] == h[|h| - k..]
    ensures |h| <= MaxHistoryLength ==> Trim(h) == h
  {
  }

  /** The pushed message survives the trim as the last one. */
  lemma TrimLast(h: seq<Message>)
    requires h != []
    ensures Trim(h) != [] && Last(Trim(h)) == Last(h)
  {
    TrimKeepsRecent(h);
    var t := Trim(h);
    assert t[|t| - 1..] == h[|h| - 1..] by {
      assert t[|t| - Min(|h|, MaxHistoryLength)..] == h[|h| - Min(|h|, MaxHistoryLength)..];
    }
    assert Last(t) == t[|t| - 1..][0];
  }

  /**
   * The length bound a trim actually gives is MaxHistoryLength + 1; the extra
   * slot is taken only by a re-inserted system message, which is then the
   * first system message of the untrimmed history.
   */
  lemma TrimLength(h: seq<Message>)
    ensures |Trim(h)| <= MaxHistoryLength + 1
    ensures |Trim(h)| == MaxHistoryLength + 1 ==>
              && HasSystem(h) && !HasSystem(h[|h| - MaxHistoryLength..])
              && Trim(h)[0] == FindSystem(h).value && Trim(h)[0].role == System
    ensures !HasSystem(h) ==> |Trim(h)| <= MaxHistoryLength
  {
  }

  /** A history that held a system message still holds one after the trim. */
  lemma {:induction false} TrimKeepsSystem(h: seq<Message>)
    requires HasSystem(h)
    ensures HasSystem(Trim(h))
  {
    if |h| > MaxHistoryLength {
      var kept := h[|h| - MaxHistoryLength..];
      if !HasSystem(kept) {
        var t := Trim(h);
        assert t[0] == FindSystem(h).value && t[0].role == System;
      }
    }
  }

  /** The overflow to MaxHistoryLength + 1 messages does happen. */
  lemma TrimReachesEleven()
    ensures var h := [Message(System, "S")] + seq(MaxHistoryLength, _ => Message(User, "u"));
            |Trim(h)| == MaxHistoryLength + 1
  {
    var h := [Message(System, "S")] + seq(MaxHistoryLength, _ => Message(User, "u"));
    var kept := h[|h| - MaxHistoryLength..];
    assert h[0].role == System;
    assert forall i :: 0 <= i < |kept| ==> kept[i].role == User;
  }

  /** The store's invariant: both maps have the same channels and every history has 1 to 11 messages. */
  ghost predicate WellFormed(s: Store) {
    && s.conversations.Keys == s.lastActivity.Keys
    && forall c :: c in s.conversations ==> 1 <= |s.conversations[c]| <= MaxHistoryLength + 1
  }

  /** The store with the given channels removed from both maps. */
  function Without(s: Store, channels: set<ChannelId>): (r: Store)
    ensures r.conversations.Keys == s.conversations.Keys - channels
    ensures r.lastActivity.Keys == s.lastActivity.Keys - channels
  {
    Store(s.conversations - channels, s.lastActivity - channels)
  }

  /** Adding a message: push it (creating the history if absent), trim, stamp the channel with `now`. */
  function Added(s: Store, c: ChannelId, role: Role, content: string, username: Option<string>, now: int): Store {
    var history := if c in s.conversations then s.conversations[c] else [];
    var message := Message(role, FormatContent(role, content, username));
    Store(s.conversations[c := Trim(history + [message])], s.lastActivity[c := now])
  }

  /** Clearing a channel removes it from both maps. */
  function Cleared(s: Store, c: ChannelId): Store {
    Without(s, {c})
  }

  /** The system prompt for a bot name. */
  function SystemPrompt(botName: string): string {
    "You are " + botName + SystemPromptTail
  }

  /** Initialising a channel: clear it, then add the system prompt as a system message. */
  function Initialized(s: Store, c: ChannelId, botName: string, now: int): Store {
    Added(Cleared(s, c), c, System, SystemPrompt(botName), None, now)
  }

  /** Expiry is strict: exactly MaxConversationAge of idle time is not yet expired. */
  predicate Expired(lastActivity: int, now: int) {
    now - lastActivity > MaxConversationAge
  }

  /**
   * Reading a channel: nothing for an absent channel; an expired one is
   * cleared and reads as empty; otherwise its history, with the activity
   * time refreshed to `now`.
   */
  function Read(s: Store, c: ChannelId, now: int): Lookup {
    if c !in s.conversations then Lookup(s, [])
    else
      var last := if c in s.lastActivity then s.lastActivity[c] else 0;
      if Expired(last, now) then Lookup(Cleared(s, c), [])
      else Lookup(Store(s.conversations, s.lastActivity[c := now]), s.conversations[c])
  }

  /** The channels whose recorded activity is older than MaxConversationAge at `now`. */
  function ExpiredChannels(s: Store, now: int): set<ChannelId> {
    set c | c in s.lastActivity && Expired(s.lastActivity[c], now)
  }

  /** The expiry sweep removes every expired channel. */
  function Swept(s: Store, now: int): Store {
    Without(s, ExpiredChannels(s, now))
  }

  /** Adding a message keeps the store well formed. */
  lemma AddedWellFormed(s: Store, c: ChannelId, role: Role, content: string, username: Option<string>, now: int)
    requires WellFormed(s)
    ensures WellFormed(Added(s, c, role, content, username, now))
  {
    var history := if c in s.conversations then s.conversations[c] else [];
    var pushed := history + [Message(role, FormatContent(role, content, username))];
    TrimLast(pushed);
    TrimLength(pushed);
  }

  /**
   * Adding a message makes it the last one of the channel's history and
   * stamps the channel with `now`; every other channel is left as it was.
   */
  lemma AddedAppends(s: Store, c: ChannelId, role: Role, content: string, username: Option<string>, now: int)
    ensures var r := Added(s, c, role, content, username, now);
            && c in r.conversations && r.conversations[c] != []
            && Last(r.conversations[c]) == Message(role, FormatContent(role, content, username))
            && r.lastActivity == s.lastActivity[c := now]
    ensures var r := Added(s, c, role, content, username, now);
            forall d :: d != c ==> (d in r.conversations <==> d in s.conversations) &&
                                   (d in r.conversations ==> r.conversations[d] == s.conversations[d])
  {
    var history := if c in s.conversations then s.conversations[c] else [];
    TrimLast(history + [Message(role, FormatContent(role, content, username))]);
  }

  /** A message added to a channel whose history has a system message leaves a system message in it. */
  lemma {:induction false} AddedKeepsSystem(s: Store, c: ChannelId, role: Role, content: string, username: Option<string>, now: int)
    requires c in s.conversations && HasSystem(s.conversations[c])
    ensures HasSystem(Added(s, c, role, content, username, now).conversations[c])
  {
    var h := s.conversations[c];
    var message := Message(role, FormatContent(role, content, username));
    var i :| 0 <= i < |h| && h[i].role == System;
    assert (h + [message])[i] == h[i];
    TrimKeepsSystem(h + [message]);
  }

  /** Clearing is idempotent and leaves every other channel untouched. */
  lemma ClearedSpec(s: Store, c: ChannelId)
    ensures Cleared(Cleared(s, c), c) == Cleared(s, c)
    ensures c !in Cleared(s, c).conversations && c !in Cleared(s, c).lastActivity
    ensures forall d :: d != c && d in s.conversations ==> Cleared(s, c).conversations[d] == s.conversations[d]
    ensures forall d :: d != c && d in s.lastActivity ==> Cleared(s, c).lastActivity[d] == s.lastActivity[d]
    ensures WellFormed(s) ==> WellFormed(Cleared(s, c))
  {
  }

  /** Whatever the channel held before, initialising it leaves exactly the one system message. */
  lemma InitializedSpec(s: Store, c: ChannelId, botName: string, now: int)
    requires WellFormed(s)
    ensures var r := Initialized(s, c, botName, now);
            && WellFormed(r)
            && r.conversations[c] == [Message(System, SystemPrompt(botName))]
            && r.lastActivity[c] == now
  {
    ClearedSpec(s, c);
    AddedWellFormed(Cleared(s, c), c, System, SystemPrompt(botName), None, now);
  }

  /**
   * An expired read forgets the channel: it returns nothing, and a second
   * read, at any time, also returns nothing and changes nothing.
   */
  lemma ReadExpired(s: Store, c: ChannelId, now: int, later: int)
    requires WellFormed(s) && c in s.conversations && Expired(s.lastActivity[c], now)
    ensures var first := Read(s, c, now);
            && first.history == []
            && c !in first.store.conversations && c !in first.store.lastActivity
            && Read(first.store, c, later) == Lookup(first.store, [])
  {
  }

  /**
   * Sliding expiry: a read that finds the channel live returns its history
   * unchanged, and the same history stays readable for another full
   * MaxConversationAge after that read.
   */
  lemma ReadSliding(s: Store, c: ChannelId, now: int, later: int)
    requires WellFormed(s) && c in s.conversations && !Expired(s.lastActivity[c], now)
    requires now <= later <= now + MaxConversationAge
    ensures var first := Read(s, c, now);
            && first.history == s.conversations[c]
            && first.store.conversations == s.conversations
            && first.store.lastActivity == s.lastActivity[c := now]
            && Read(first.store, c, later).history == s.conversations[c]
  {
  }

  /** Reading keeps the store well formed; it never creates a channel. */
  lemma ReadWellFormed(s: Store, c: ChannelId, now: int)
    requires WellFormed(s)
    ensures WellFormed(Read(s, c, now).store)
    ensures Read(s, c, now).store.conversations.Keys <= s.conversations.Keys
  {
  }

  /**
   * The sweep removes exactly the expired channels; the histories and
   * activity times of all other channels are unchanged.
   */
  lemma SweptSpec(s: Store, now: int)
    requires WellFormed(s)
    ensures var r := Swept(s, now);
            && WellFormed(r)
            && (forall c :: c in r.conversations <==> c in s.conversations && !Expired(s.lastActivity[c], now))
            && (forall c :: c in r.conversations ==> r.conversations[c] == s.conversations[c] && r.lastActivity[c] == s.lastActivity[c])
  {
  }

  /**
   * The sweep is unobservable through reads at the same time: it only
   * reclaims channels that a read would report as empty anyway.
   */
  lemma SweepInvisibleToRead(s: Store, c: ChannelId, now: int)
    requires WellFormed(s)
    ensures Read(Swept(s, now), c, now).history == Read(s, c, now).history
  {
  }

  /**
   * One round of the sweep loop: the channel taken from the pending set is
   * still present with its original time; it is cleared exactly when
   * expired, which is what removing it from the pending set asks for.
   */
  lemma SweepStep(start: Store, now: int, pending: set<ChannelId>, c: ChannelId)
    requires c in pending && pending <= start.lastActivity.Keys
    ensures var s := Without(start, ExpiredChannels(start, now) - pending);
            var next := Without(start, ExpiredChannels(start, now) - (pending - {c}));
            && c in s.lastActivity && s.lastActivity[c] == start.lastActivity[c]
            && (Expired(start.lastActivity[c], now) ==> Cleared(s, c) == next)
            && (!Expired(start.lastActivity[c], now) ==> s == next)
  {
    var expired := ExpiredChannels(start, now);
    if Expired(start.lastActivity[c], now) {
      assert expired - (pending - {c}) == (expired - pending) + {c};
      assert start.conversations - (expired - pending) - {c} == start.conversations - ((expired - pending) + {c});
      assert start.lastActivity - (expired - pending) - {c} == start.lastActivity - ((expired - pending) + {c});
    } else {
      assert expired - (pending - {c}) == expired - pending;
    }
  }

  /** Sweeping twice at the same time removes nothing more. */
  lemma SweptIdempotent(s: Store, now: int)
    ensures Swept(Swept(s, now), now) == Swept(s, now)
  {
  }

  /**
   * Initialise a channel, add a user's message with a username, read it back
   * within the expiry window: the system prompt and the prefixed message.
   */
  lemma InitializeAddRead(s: Store, c: ChannelId, t0: int, t1: int, t2: int)
    requires WellFormed(s)
    requires t0 <= t1 <= t2 <= t1 + MaxConversationAge
    ensures var s1 := Initialized(s, c, DefaultBotName, t0);
            var s2 := Added(s1, c, User, "hi", Some("alice"), t1);
            Read(s2, c, t2).history == [Message(System, SystemPrompt(DefaultBotName)), Message(User, "alice: hi")]
  {
    InitializedSpec(s, c, DefaultBotName, t0);
    var s1 := Initialized(s, c, DefaultBotName, t0);
    var pushed := s1.conversations[c] + [Message(User, "alice: hi")];
    assert FormatContent(User, "hi", Some("alice")) == "alice: hi";
    assert Trim(pushed) == pushed;
  }

  /** A channel that never had a system message keeps only its MaxHistoryLength most recent messages. */
  lemma AddedKeepsMostRecent(s: Store, c: ChannelId, role: Role, content: string, username: Option<string>, now: int)
    requires c in s.conversations && role != System && !HasSystem(s.conversations[c])
    requires |s.conversations[c]| >= MaxHistoryLength
    ensures var pushed := s.conversations[c] + [Message(role, FormatContent(role, content, username))];
            Added(s, c, role, content, username, now).conversations[c] == pushed[|pushed| - MaxHistoryLength..]
  {
    var pushed := s.conversations[c] + [Message(role, FormatContent(role, content, username))];
    assert !HasSystem(pushed) by {
      forall i | 0 <= i < |pushed| ensures pushed[i].role != System {
        if i < |pushed| - 1 {
          assert pushed[i] == s.conversations[c][i];
        }
      }
    }
    assert !HasSystem(pushed[|pushed| - MaxHistoryLength..]) by {
      var kept := pushed[|pushed| - MaxHistoryLength..];
      forall i | 0 <= i < |kept| ensures kept[i].role != System {
        assert kept[i] == pushed[|pushed| - MaxHistoryLength + i];
      }
    }
  }

  /**
   * The store itself: the two module-level maps of the bot, updated in place.
   * Every method keeps Valid() and moves the maps exactly as the matching
   * function above says.
   */
  class ConversationStore {
    var conversations: map<ChannelId, seq<Message>>
    var lastActivityTime: map<ChannelId, int>

    function State(): Store
      reads this
    {
      Store(conversations, lastActivityTime)
    }

    ghost predicate Valid()
      reads this
    {
      WellFormed(State())
    }

    constructor ()
      ensures Valid() && State() == Store(map[], map[])
    {
      conversations := map[];
      lastActivityTime := map[];
    }

    method AddMessage(channelId: ChannelId, role: Role, content: string, username: Option<string>, now: int)
      requires Valid()
      modifies this
      ensures Valid()
      ensures State() == Added(old(State()), channelId, role, content, username, now)
    {
      ghost var s0 := State();
      AddedWellFormed(s0, channelId, role, content, username, now);
      // a channel without a history starts from an empty one; the push extends it in place
      var stored := if channelId in conversations then conversations[channelId] else [];
      var message := Message(role, FormatContent(role, content, username));
      var history := stored + [message];
      var newHistory := history;
      if |history| > MaxHistoryLength {
        var systemMessage := FindSystem(history);
        newHistory := history[|history| - MaxHistoryLength..];
        if systemMessage.Some? && !HasSystem(newHistory) {
          newHistory := [systemMessage.value] + newHistory;
        }
      }
      assert newHistory == Trim(history);
      conversations := conversations[channelId := newHistory];
      lastActivityTime := lastActivityTime[channelId := now];
    }

    method GetConversation(channelId: ChannelId, now: int) returns (history: seq<Message>)
      requires Valid()
      modifies this
      ensures Valid()
      ensures Lookup(State(), history) == Read(old(State()), channelId, now)
    {
      ReadWellFormed(State(), channelId, now);
      if channelId in conversations {
        var lastActivity := if channelId in lastActivityTime then lastActivityTime[channelId] else 0;
        if now - lastActivity > MaxConversationAge {
          ClearConversation(channelId);
          return [];
        }
        lastActivityTime := lastActivityTime[channelId := now];
        return conversations[channelId];
      }
      return [];
    }

    method ClearConversation(channelId: ChannelId)
      requires Valid()
      modifies this
      ensures Valid()
      ensures State() == Cleared(old(State()), channelId)
    {
      conversations := conversations - {channelId};
      lastActivityTime := lastActivityTime - {channelId};
    }

    method InitializeConversation(channelId: ChannelId, botName: string, now: int)
      requires Valid()
      modifies this
      ensures Valid()
      ensures State() == Initialized(old(State()), channelId, botName, now)
    {
      ClearConversation(channelId);
      AddMessage(channelId, System, SystemPrompt(botName), None, now);
    }

    method CleanupExpiredConversations(now: int)
      requires Valid()
      modifies this
      ensures Valid()
      ensures State() == Swept(old(State()), now)
    {
      ghost var start := State();
      SweptSpec(start, now);
      var pending := lastActivityTime.Keys;
      while pending != {}
        invariant pending <= start.lastActivity.Keys
        invariant State() == Without(start, ExpiredChannels(start, now) - pending)
        invariant Valid()
        decreases pending
      {
        var channelId :| channelId in pending;
        SweepStep(start, now, pending, channelId);
        var lastActivity := lastActivityTime[channelId];
        if now - lastActivity > MaxConversationAge {
          ClearConversation(channelId);
        }
        pending := pending - {channelId};
      }
    }
  }
}
