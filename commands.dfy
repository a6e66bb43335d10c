/**
 * The argument handling of the bot's commands: the day counts of /metrics,
 * /heatmap and /leaders, the minutes of /chill and /mute, and the
 * @username lookup of /mute.
 */
module Commands {
  import opened Wrappers
  import opened Util

  /** max(lo, min(hi, n)). */
  function Clamp(n: int, lo: int, hi: int): (r: int)
    requires lo <= hi
    ensures lo <= r <= hi
    ensures lo <= n <= hi ==> r == n
    ensures n < lo ==> r == lo
    ensures n > hi ==> r == hi
  {
    if n < lo then lo else if n > hi then hi else n
  }

  // ---------------------------------------------------------------------
  // Day counts (bot.py:168-214)

  /**
   * The days of a report command: the default without arguments or when
   * int(args[0]) fails, otherwise int(args[0]) clamped to [lo, hi].
   */
  function DaysArgument(args: seq<string>, default: int, lo: int, hi: int): (days: int)
    requires lo <= default <= hi
    ensures lo <= days <= hi
    ensures (|args| == 0 || ParseInt(args[0]).None?) ==> days == default
    ensures |args| > 0 && ParseInt(args[0]).Some? && lo <= ParseInt(args[0]).value <= hi ==>
              days == ParseInt(args[0]).value
    ensures |args| > 0 && ParseInt(args[0]).Some? && ParseInt(args[0]).value < lo ==> days == lo
    ensures |args| > 0 && ParseInt(args[0]).Some? && ParseInt(args[0]).value > hi ==> days == hi
  {
    if |args| == 0 then default
    else match ParseInt(args[0])
      case None => default
      case Some(n) => Clamp(n, lo, hi)
  }

  /** /metrics: 7 days by default, between 1 and 90. */
  function MetricsDays(args: seq<string>): (days: int)
    ensures 1 <= days <= 90
    ensures |args| == 0 ==> days == 7
  {
    DaysArgument(args, 7, 1, 90)
  }

  /** /heatmap: 30 days by default, between 7 and 180. */
  function HeatmapDays(args: seq<string>): (days: int)
    ensures 7 <= days <= 180
    ensures |args| == 0 ==> days == 30
  {
    DaysArgument(args, 30, 7, 180)
  }

  /** /leaders: 30 days by default, between 7 and 365. */
  function LeadersDays(args: seq<string>): (days: int)
    ensures 7 <= days <= 365
    ensures |args| == 0 ==> days == 30
  {
    DaysArgument(args, 30, 7, 365)
  }

  /** A day count inside the range, written out, is taken as it is. */
  lemma DaysArgumentOfNumber(n: nat, rest: seq<string>, default: int, lo: int, hi: int)
    requires lo <= default <= hi && lo <= n <= hi
    ensures DaysArgument([NatToString(n)] + rest, default, lo, hi) == n
  {
    ParseIntOfNat(n);
  }

  // ---------------------------------------------------------------------
  // int(float(arg)) for /chill and /mute

  /**
   * int(float(s)) for plain decimal text: surrounding whitespace, an
   * optional sign, digits with at most one decimal point and at least one
   * digit. The fraction is dropped towards zero; anything else is a
   * ValueError (None).
   */
  function TruncatedFloat(s: string): Option<int> {
    SignedWhole(Strip(s))
  }

  /** int(float(t)) once the whitespace is gone: an optional sign, then unsigned decimal text. */
  function SignedWhole(t: string): Option<int> {
    var body := if |t| > 0 && (t[0] == '-' || t[0] == '+') then t[1..] else t;
    match DecimalWhole(body)
    case None => None
    case Some(v) =>
      var w: int := v;
      Some(if |t| > 0 && t[0] == '-' then -w else w)
  }

  /** The whole part of unsigned decimal text "d", "d.", ".f" or "d.f" (at least one digit). */
  function DecimalWhole(body: string): Option<nat> {
    var parts := Split(body, '.');
    var whole := parts[0];
    if |parts| > 2 || !AllDigits(whole) then None
    else if |parts| == 2 && !AllDigits(parts[1]) then None
    else if |whole| == 0 && (|parts| == 1 || |parts[1]| == 0) then None
    else Some(DigitsValue(whole))
  }

  lemma DotNotDigit(s: string)
    requires AllDigits(s)
    ensures '.' !in s
  {
    assert !IsDigit('.');
  }

  lemma DecimalWholeOfDigits(s: string)
    requires |s| > 0 && AllDigits(s)
    ensures DecimalWhole(s) == Some(DigitsValue(s))
  {
    DotNotDigit(s);
    NoSepSplit(s, '.');
  }

  lemma DecimalWholeOfFraction(a: string, b: string)
    requires |a| > 0 && AllDigits(a) && AllDigits(b)
    ensures DecimalWhole(a + "." + b) == Some(DigitsValue(a))
  {
    DotNotDigit(a);
    DotNotDigit(b);
    SplitAtSep(a, b, '.');
    NoSepSplit(b, '.');
  }

  lemma SignedWholeUnsigned(t: string)
    requires |t| > 0 && IsDigit(t[0])
    ensures SignedWhole(t) == if DecimalWhole(t).Some? then Some(DecimalWhole(t).value as int) else None
  {
  }

  lemma SignedWholeNegative(t: string)
    requires |t| > 0 && t[0] == '-'
    ensures SignedWhole(t) == if DecimalWhole(t[1..]).Some? then Some(-(DecimalWhole(t[1..]).value as int)) else None
  {
  }

  lemma TruncatedFloatOfDigits(s: string)
    requires |s| > 0 && AllDigits(s)
    ensures TruncatedFloat(s) == Some(DigitsValue(s) as int)
  {
    StripOfDigits(s);
    DecimalWholeOfDigits(s);
    SignedWholeUnsigned(s);
  }

  /** A whole number, written out, reads back as itself. */
  lemma TruncatedFloatOfNat(n: nat)
    ensures TruncatedFloat(NatToString(n)) == Some(n)
  {
    TruncatedFloatOfDigits(NatToString(n));
    DigitsRoundTrip(n);
  }

  /** "w.f" reads as w: the fraction is dropped. */
  lemma TruncatedFloatDropsFraction(w: nat, f: nat)
    ensures TruncatedFloat(NatToString(w) + "." + NatToString(f)) == Some(w)
  {
    var a, b := NatToString(w), NatToString(f);
    var s := a + "." + b;
    assert s[0] == a[0] && s[|s| - 1] == b[|b| - 1];
    StripUnchanged(s);
    assert IsDigit(s[0]);
    DecimalWholeOfFraction(a, b);
    DigitsRoundTrip(w);
    SignedWholeUnsigned(s);
  }

  /** "-a.b" reads as -a: int() truncates towards zero, it does not round down. */
  lemma TruncatedFloatTowardsZero(t: string, a: string, b: string)
    requires |a| > 0 && AllDigits(a) && AllDigits(b)
    requires |t| > 0 && t[0] == '-' && t[1..] == a + "." + b
    ensures SignedWhole(t) == Some(-(DigitsValue(a) as int))
  {
    DecimalWholeOfFraction(a, b);
    assert DecimalWhole(t[1..]) == Some(DigitsValue(a));
    SignedWholeNegative(t);
  }

  // ---------------------------------------------------------------------
  // /chill (bot.py:361-408)

  const MaxMuteMinutes := 10080

  /** The clamp of /chill: minutes in [1, 10080], and whether the request was cut down. */
  function ChillMinutes(requested: int): (r: (int, bool))
    ensures 1 <= r.0 <= MaxMuteMinutes
    ensures r.1 <==> requested > MaxMuteMinutes
    ensures 1 <= requested <= MaxMuteMinutes ==> r.0 == requested
    ensures requested < 1 ==> r.0 == 1
    ensures requested > MaxMuteMinutes ==> r.0 == MaxMuteMinutes
  {
    var minutes := if requested < 1 then 1 else requested;
    if minutes > MaxMuteMinutes then (MaxMuteMinutes, true) else (minutes, false)
  }

  datatype ChillOutcome =
    | Ignored                                   // not the configured chat, or no user or message
    | ChillUsage                                // no argument, or one that is not a number
    | StatusRaised                              // reading the sender's status raised: no reply
    | AdminCannotChill
    | ChillFailed                               // the restriction was refused: "Mute failed"
    | Chilled(minutes: int, limited: bool, until: int)

  /**
   * /chill: the sender mutes themself. inChat says the update comes from the
   * configured chat with a user and a message; statusKnown says reading the
   * sender's status from Telegram succeeded (the read sits outside any
   * try, so its failure ends the handler), senderIsAdmin is that status;
   * restrictOk says Telegram accepted the restriction; now is the clock in
   * seconds.
   */
  function Chill(inChat: bool, args: seq<string>, statusKnown: bool, senderIsAdmin: bool,
                 restrictOk: bool, now: int): (r: ChillOutcome)
    ensures !inChat <==> r == Ignored
    ensures r == ChillUsage <==> inChat && (|args| == 0 || TruncatedFloat(args[0]).None?)
    ensures r == StatusRaised <==>
              inChat && |args| > 0 && TruncatedFloat(args[0]).Some? && !statusKnown
    ensures r == AdminCannotChill <==>
              inChat && |args| > 0 && TruncatedFloat(args[0]).Some? && statusKnown && senderIsAdmin
    ensures r == ChillFailed <==>
              inChat && |args| > 0 && TruncatedFloat(args[0]).Some? && statusKnown && !senderIsAdmin &&
              !restrictOk
    ensures r.Chilled? <==>
              inChat && |args| > 0 && TruncatedFloat(args[0]).Some? && statusKnown && !senderIsAdmin &&
              restrictOk
    ensures r.Chilled? ==> 1 <= r.minutes <= MaxMuteMinutes && r.until == now + 60 * r.minutes
    ensures r.Chilled? ==> (r.limited <==> TruncatedFloat(args[0]).value > MaxMuteMinutes)
    ensures r.Chilled? && 1 <= TruncatedFloat(args[0]).value <= MaxMuteMinutes ==>
              r.minutes == TruncatedFloat(args[0]).value
  {
    if !inChat then Ignored
    else if |args| == 0 then ChillUsage
    else match TruncatedFloat(args[0])
      case None => ChillUsage
      case Some(requested) =>
        var (minutes, limited) := ChillMinutes(requested);
        if !statusKnown then StatusRaised
        else if senderIsAdmin then AdminCannotChill
        else if !restrictOk then ChillFailed
        else Chilled(minutes, limited, now + 60 * minutes)
  }

  // ---------------------------------------------------------------------
  // @username lookup (bot.py:437-442)

  /** str.lower() on ASCII letters. */
  function Lower(s: string): (r: string)
    ensures |r| == |s|
    ensures forall i :: 0 <= i < |s| ==> (r[i] == s[i] <==> !('A' <= s[i] <= 'Z'))
    ensures forall i :: 0 <= i < |s| && 'A' <= s[i] <= 'Z' ==> r[i] as int == s[i] as int + 32
  {
    if |s| == 0 then []
    else [if 'A' <= s[0] <= 'Z' then (s[0] as int + 32) as char else s[0]] + Lower(s[1..])
  }

  /** Lowering twice is lowering once. */
  lemma {:induction false} LowerIdempotent(s: string)
    ensures Lower(Lower(s)) == Lower(s)
  {
    if |s| > 0 {
      LowerIdempotent(s[1..]);
      assert Lower(s)[1..] == Lower(s[1..]);
    }
  }

  /**
   * The comparison as written at bot.py:441: the member's lowered username
   * against "@" followed by the lowered argument.
   */
  predicate UsernameMatchesAsWritten(memberUsername: string, wanted: string) {
    Lower(memberUsername) == "@" + Lower(wanted)
  }

  /** A Telegram username never starts with '@', so the comparison as written never holds. */
  lemma AsWrittenNeverMatches(memberUsername: string, wanted: string)
    requires |memberUsername| == 0 || memberUsername[0] != '@'
    ensures !UsernameMatchesAsWritten(memberUsername, wanted)
  {
    if |memberUsername| > 0 {
      assert Lower(memberUsername)[0] != '@';
    }
  }

  /** The evidently intended comparison: usernames equal up to case. */
  predicate UsernameMatches(memberUsername: string, wanted: string) {
    Lower(memberUsername) == Lower(wanted)
  }

  /** The intended comparison finds a member by their own username, whatever its case. */
  lemma UsernameMatchesItself(memberUsername: string, wanted: string)
    requires Lower(wanted) == Lower(memberUsername)
    ensures UsernameMatches(memberUsername, wanted)
    ensures UsernameMatches(memberUsername, Lower(wanted))
  {
    LowerIdempotent(memberUsername);
  }

  /** A chat member as the lookup sees it: user id and optional username. */
  datatype Member = Member(id: int, username: Option<string>)

  /** The first member whose username matches, as the `async for ... break` loop finds it. */
  function FindMember(members: seq<Member>, wanted: string): (r: Option<int>)
    ensures r.None? <==>
              forall i :: 0 <= i < |members| ==>
                !(members[i].username.Some? && UsernameMatches(members[i].username.value, wanted))
    ensures r.Some? ==> MemberNamed(members, r.value, wanted)
  {
    if |members| == 0 then None
    else if members[0].username.Some? && UsernameMatches(members[0].username.value, wanted) then
      Some(members[0].id)
    else
      var r := FindMember(members[1..], wanted);
      assert forall i :: 1 <= i < |members| ==> members[i] == members[1..][i - 1];
      r
  }

  /** The loop with the comparison as written: no member whose username lacks a leading '@' is found. */
  function FindMemberAsWritten(members: seq<Member>, wanted: string): Option<int> {
    if |members| == 0 then None
    else if members[0].username.Some? && UsernameMatchesAsWritten(members[0].username.value, wanted) then
      Some(members[0].id)
    else FindMemberAsWritten(members[1..], wanted)
  }

  predicate NoAtUsernames(members: seq<Member>) {
    forall i :: 0 <= i < |members| && members[i].username.Some? ==>
      |members[i].username.value| == 0 || members[i].username.value[0] != '@'
  }

  /** With the comparison as written, /mute @name never finds anyone. */
  lemma {:induction false} AsWrittenFindsNobody(members: seq<Member>, wanted: string)
    requires NoAtUsernames(members)
    ensures FindMemberAsWritten(members, wanted) == None
  {
    if |members| > 0 {
      if members[0].username.Some? {
        AsWrittenNeverMatches(members[0].username.value, wanted);
      }
      assert NoAtUsernames(members[1..]) by {
        forall i | 0 <= i < |members[1..]| && members[1..][i].username.Some?
          ensures |members[1..][i].username.value| == 0 || members[1..][i].username.value[0] != '@'
        {
          assert members[1..][i] == members[i + 1];
        }
      }
      AsWrittenFindsNobody(members[1..], wanted);
    }
  }

  /** A member listed with a username is found by it (or an earlier match is). */
  lemma FindMemberFinds(members: seq<Member>, k: int)
    requires 0 <= k < |members| && members[k].username.Some?
    ensures FindMember(members, members[k].username.value).Some?
  {
    UsernameMatchesItself(members[k].username.value, members[k].username.value);
  }

  // ---------------------------------------------------------------------
  // /mute (bot.py:410-476)

  datatype MuteOutcome =
    | WrongChat
    | NotMuteAdmin
    | MuteUsage
    | BadMinutes
    | UserNotFound(username: string)
    | LookupFailed                              // listing the members raised
    | StatusUnknown                             // reading the target's status raised
    | TargetIsAdmin
    | RestrictFailed                            // the restriction was refused
    | Muted(target: int, minutes: int, until: int)

  function StartsWithAt(s: string): bool {
    |s| > 0 && s[0] == '@'
  }

  /**
   * How the Telegram calls of /mute went: listing the chat's members,
   * reading the target's status, and restricting the target. Each false
   * stands for the call raising.
   */
  datatype MuteCalls = MuteCalls(lookupOk: bool, statusKnown: bool, restrictOk: bool)

  /**
   * /mute: a mute admin mutes the author of the replied-to message, or the
   * member named by "@username", for the given minutes clamped to
   * [1, 10080]. replyFrom is the sender of the replied-to message when there
   * is one (isReply); members is the chat's member list and admins its
   * administrators, both read from Telegram, and calls how those reads and
   * the restriction went. The username is compared with the intended
   * case-insensitive equality.
   */
  function Mute(inChat: bool, actor: Option<int>, muteAdminIds: seq<int>, args: seq<string>,
                isReply: bool, replyFrom: Option<int>, members: seq<Member>, admins: set<int>,
                calls: MuteCalls, now: int): (r: MuteOutcome)
    ensures !inChat <==> r == WrongChat
    ensures r == NotMuteAdmin <==> inChat && (actor.None? || actor.value !in muteAdminIds)
    ensures inChat && actor.Some? && actor.value in muteAdminIds && |args| == 0 ==> r == MuteUsage
    ensures inChat && actor.Some? && actor.value in muteAdminIds && |args| > 0 ==>
              r == MuteDecision(TruncatedFloat(MinutesArgument(args, isReply)),
                                MuteTarget(args, isReply, replyFrom, members),
                                LookedUpName(args, isReply, replyFrom), admins, calls, now)
    ensures r.Muted? ==> actor.Some? && actor.value in muteAdminIds && |args| > 0 && r.target !in admins
  {
    if !inChat then WrongChat
    else if actor.None? || actor.value !in muteAdminIds then NotMuteAdmin
    else if |args| == 0 then MuteUsage
    else MuteDecision(TruncatedFloat(MinutesArgument(args, isReply)),
                      MuteTarget(args, isReply, replyFrom, members),
                      LookedUpName(args, isReply, replyFrom), admins, calls, now)
  }

  /** The name /mute looks up: the first argument after its "@", when the message is not a reply. */
  function LookedUpName(args: seq<string>, isReply: bool, replyFrom: Option<int>): (name: Option<string>)
    requires |args| > 0
    ensures name.Some? <==> !(isReply && replyFrom.Some?) && StartsWithAt(args[0])
    ensures name.Some? ==> args[0] == "@" + name.value
  {
    if !(isReply && replyFrom.Some?) && StartsWithAt(args[0]) then Some(args[0][1..]) else None
  }

  /**
   * What /mute does once the actor is known to be a mute admin and there is
   * an argument: requested is the parsed minutes, target whom the message
   * aims at, and name the username looked up, if any; the member list is
   * read only when a name is looked up.
   */
  function MuteDecision(requested: Option<int>, target: Option<int>, name: Option<string>,
                        admins: set<int>, calls: MuteCalls, now: int): (r: MuteOutcome)
    ensures r != WrongChat && r != NotMuteAdmin
    ensures r == BadMinutes <==> requested.None?
    ensures r == LookupFailed <==> requested.Some? && name.Some? && !calls.lookupOk
    ensures r.UserNotFound? <==> requested.Some? && name.Some? && calls.lookupOk && target.None?
    ensures r.UserNotFound? ==> r.username == name.value
    ensures r == MuteUsage <==> requested.Some? && name.None? && target.None?
    ensures r == StatusUnknown <==>
              requested.Some? && (name.None? || calls.lookupOk) && target.Some? && !calls.statusKnown
    ensures r == TargetIsAdmin <==>
              requested.Some? && (name.None? || calls.lookupOk) && target.Some? && calls.statusKnown &&
              target.value in admins
    ensures r == RestrictFailed <==>
              requested.Some? && (name.None? || calls.lookupOk) && target.Some? && calls.statusKnown &&
              target.value !in admins && !calls.restrictOk
    ensures r.Muted? <==>
              requested.Some? && (name.None? || calls.lookupOk) && target.Some? && calls.statusKnown &&
              target.value !in admins && calls.restrictOk
    ensures r.Muted? ==>
              r.target == target.value && r.minutes == ChillMinutes(requested.value).0 &&
              1 <= r.minutes <= MaxMuteMinutes && r.until == now + 60 * r.minutes
  {
    match requested
    case None => BadMinutes
    case Some(n) =>
      var minutes := ChillMinutes(n).0;
      if name.Some? && !calls.lookupOk then LookupFailed
      else match target
        case None => if name.Some? then UserNotFound(name.value) else MuteUsage
        case Some(t) =>
          if !calls.statusKnown then StatusUnknown
          else if t in admins then TargetIsAdmin
          else if !calls.restrictOk then RestrictFailed
          else Muted(t, minutes, now + 60 * minutes)
  }

  /** The argument holding the minutes: the first when replying, otherwise the last. */
  function MinutesArgument(args: seq<string>, isReply: bool): string
    requires |args| > 0
  {
    if isReply then args[0] else args[|args| - 1]
  }

  /** Some member of the list has this id and a username matching `wanted`. */
  ghost predicate MemberNamed(members: seq<Member>, id: int, wanted: string) {
    exists i :: 0 <= i < |members| && members[i].id == id &&
      members[i].username.Some? && UsernameMatches(members[i].username.value, wanted)
  }

  /**
   * Whom /mute is aimed at: the sender of the replied-to message, else the
   * member named by an "@username" first argument, else nobody.
   */
  function MuteTarget(args: seq<string>, isReply: bool, replyFrom: Option<int>, members: seq<Member>): (t: Option<int>)
    requires |args| > 0
    ensures isReply && replyFrom.Some? ==> t == replyFrom
    ensures !(isReply && replyFrom.Some?) && !StartsWithAt(args[0]) ==> t.None?
    ensures !(isReply && replyFrom.Some?) && StartsWithAt(args[0]) ==>
              (t.Some? ==> MemberNamed(members, t.value, args[0][1..])) &&
              (t.None? <==> forall i :: 0 <= i < |members| ==>
                 !(members[i].username.Some? && UsernameMatches(members[i].username.value, args[0][1..])))
  {
    if isReply && replyFrom.Some? then replyFrom
    else if StartsWithAt(args[0]) then FindMember(members, args[0][1..])
    else None
  }

  /** Replying to a non-admin's message with a number mutes exactly that user for those minutes. */
  lemma MuteByReply(actor: int, muteAdminIds: seq<int>, n: nat, rest: seq<string>, target: int,
                    members: seq<Member>, admins: set<int>, lookupOk: bool, now: int)
    requires actor in muteAdminIds && target !in admins && 1 <= n <= MaxMuteMinutes
    ensures Mute(true, Some(actor), muteAdminIds, [NatToString(n)] + rest, true, Some(target), members, admins,
                 MuteCalls(lookupOk, true, true), now)
         == Muted(target, n, now + 60 * n)
  {
    var args := [NatToString(n)] + rest;
    assert MinutesArgument(args, true) == NatToString(n);
    TruncatedFloatOfNat(n);
    assert MuteTarget(args, true, Some(target), members) == Some(target);
    assert LookedUpName(args, true, Some(target)) == None;
    assert MuteDecision(Some(n), Some(target), None, admins, MuteCalls(lookupOk, true, true), now)
        == Muted(target, n, now + 60 * n);
  }
}
