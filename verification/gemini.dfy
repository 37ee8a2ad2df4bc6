/** The deterministic parts of the content-generator client: what each
    wrapper does with whatever the generator answered. The generator itself,
    its prompts and its schemas are outside the model; each answer is an
    `Outcome` input (a returned text, or a thrown error). */
module GeminiService {
  import opened Common
  import opened Text
  import opened Types

  /** Structured generation: the answer text is trimmed and parsed as JSON.
      `parse` is the JSON reading, `None` when the text does not parse. A
      thrown call or a failed parse both give `None`; nothing else does. */
  function ContentWithSchema<T>(response: Outcome<string>, parse: string -> Option<T>): (r: Option<T>)
    ensures response.Threw? ==> r.None?
    ensures response.Returned? ==> r == parse(Trim(response.value))
  {
    match response
    case Threw => None
    case Returned(text) => parse(Trim(text))
  }

  /** Whitespace around the generator's answer never changes what structured
      generation yields. */
  lemma ContentWithSchemaIgnoresPadding<T>(text: string, parse: string -> Option<T>)
    ensures ContentWithSchema(Returned(text), parse) == ContentWithSchema(Returned(Trim(text)), parse)
  {
    TrimIdempotent(text);
  }

  /** The sentence a ship description falls back to when generation throws. */
  const ShipDescriptionFallback: string := "A versatile vessel" + " ready for a variety of tasks."

  /** A generated ship description: the trimmed answer, or the fallback
      sentence when the call throws. It never carries whitespace at either
      end and it is never an error. */
  function ShipDescription(response: Outcome<string>): (r: string)
    ensures response.Threw? ==> r == ShipDescriptionFallback
    ensures response.Returned? ==> r == Trim(response.value)
    ensures r == [] || (!IsWhitespace(r[0]) && !IsWhitespace(r[|r| - 1]))
  {
    match response
    case Threw =>
      FallbackTrimmed();
      ShipDescriptionFallback
    case Returned(text) => Trim(text)
  }

  lemma FallbackTrimmed()
    ensures !IsWhitespace(ShipDescriptionFallback[0])
    ensures !IsWhitespace(ShipDescriptionFallback[|ShipDescriptionFallback| - 1])
  {
  }

  /** The status keywords in the order the parser tries them. */
  const StatusOrder: seq<ServerStatusValue> :=
    [Operational, DegradedPerformance, PartialOutage, MajorOutage, UnderMaintenance]

  lemma StatusOrderComplete(v: ServerStatusValue)
    ensures v in StatusOrder
  {
  }

  /** The status whose keyword is exactly `text`, if any. */
  function ExactStatus(text: string): (r: Option<ServerStatusValue>)
    ensures r.Some? ==> Keyword(r.value) == text
    ensures r.None? ==> forall v :: Keyword(v) != text
  {
    if text == Keyword(Operational) then Some(Operational)
    else if text == Keyword(DegradedPerformance) then Some(DegradedPerformance)
    else if text == Keyword(PartialOutage) then Some(PartialOutage)
    else if text == Keyword(MajorOutage) then Some(MajorOutage)
    else if text == Keyword(UnderMaintenance) then Some(UnderMaintenance)
    else None
  }

  /** The position of the first status of `candidates` whose keyword occurs
      in `text`, or `|candidates|` when there is none. */
  function FirstContainedIndex(text: string, candidates: seq<ServerStatusValue>): (i: nat)
    ensures i <= |candidates|
    ensures forall j :: 0 <= j < i ==> !Contains(text, Keyword(candidates[j]))
    ensures i < |candidates| ==> Contains(text, Keyword(candidates[i]))
    decreases |candidates|
  {
    if |candidates| == 0 then 0
    else if Contains(text, Keyword(candidates[0])) then 0
    else
      var i := FirstContainedIndex(text, candidates[1..]);
      assert forall j :: 1 <= j < i + 1 ==> candidates[j] == candidates[1..][j - 1];
      i + 1
  }

  /** No status before position `i` of `candidates` has its keyword in `text`. */
  predicate NoneContainedBefore(text: string, candidates: seq<ServerStatusValue>, i: nat)
    requires i <= |candidates|
  {
    forall j :: 0 <= j < i ==> !Contains(text, Keyword(candidates[j]))
  }

  /** The first status of `candidates` whose keyword occurs in `text`. */
  function FirstContained(text: string, candidates: seq<ServerStatusValue>): (r: Option<ServerStatusValue>)
    ensures r.None? <==> forall i :: 0 <= i < |candidates| ==> !Contains(text, Keyword(candidates[i]))
    ensures r.Some? ==> r.value in candidates && Contains(text, Keyword(r.value))
    ensures r.Some? ==>
      exists i :: 0 <= i < |candidates| && candidates[i] == r.value && NoneContainedBefore(text, candidates, i)
  {
    var i := FirstContainedIndex(text, candidates);
    if i < |candidates| then Some(candidates[i]) else None
  }

  /** Reading the status answer: it is trimmed and lower-cased; an exact
      keyword is taken as is, otherwise the first keyword in the fixed order
      that occurs in the text, otherwise nothing. A result is always a status
      whose keyword occurs in the normalised text, and nothing is returned
      only when no keyword occurs in it. */
  function ParseServerStatus(answer: string): (r: Option<ServerStatusValue>)
    ensures r.Some? ==> Contains(ToLower(Trim(answer)), Keyword(r.value))
    ensures forall v :: Keyword(v) == ToLower(Trim(answer)) ==> r == Some(v)
    ensures r.None? <==> forall v :: !Contains(ToLower(Trim(answer)), Keyword(v))
  {
    var t := ToLower(Trim(answer));
    var r := match ExactStatus(t)
      case Some(v) => Some(v)
      case None => FirstContained(t, StatusOrder);
    ParseFacts(t, r);
    r
  }

  lemma ParseFacts(t: string, r: Option<ServerStatusValue>)
    requires r == match ExactStatus(t) case Some(v) => Some(v) case None => FirstContained(t, StatusOrder)
    ensures r.Some? ==> Contains(t, Keyword(r.value))
    ensures forall v :: Keyword(v) == t ==> r == Some(v)
    ensures r.None? <==> forall v :: !Contains(t, Keyword(v))
  {
    forall v | Keyword(v) == t
      ensures r == Some(v)
    {
      KeywordInjective(ExactStatus(t).value, v);
    }
    if ExactStatus(t).Some? {
      ContainsAt(t, t, 0);
      assert t[0..|t|] == t;
    } else if r.None? {
      forall v
        ensures !Contains(t, Keyword(v))
      {
        StatusOrderComplete(v);
        var i :| 0 <= i < |StatusOrder| && StatusOrder[i] == v;
      }
    }
  }

  lemma KeywordInjective(v: ServerStatusValue, w: ServerStatusValue)
    requires Keyword(v) == Keyword(w)
    ensures v == w
  {
  }

  /** No keyword occurs inside a different keyword: each pair is told apart
      by a character the inner one has and the outer one lacks. */
  lemma KeywordsDoNotNest(v: ServerStatusValue, w: ServerStatusValue)
    requires v != w
    ensures !Contains(Keyword(v), Keyword(w))
  {
    var c := TellApart(v, w);
    if Contains(Keyword(v), Keyword(w)) {
      ContainsKeepsChars(Keyword(v), Keyword(w), c);
    }
  }

  /** A character of the keyword of `w` that the keyword of `v` lacks. */
  function TellApart(v: ServerStatusValue, w: ServerStatusValue): (c: char)
    requires v != w
    ensures c in Keyword(w) && c !in Keyword(v)
  {
    match w
    case Operational => ApartFromOperational(v)
    case DegradedPerformance => ApartFromDegraded(v)
    case PartialOutage => ApartFromPartial(v)
    case MajorOutage => ApartFromMajor(v)
    case UnderMaintenance => ApartFromMaintenance(v)
  }

  function ApartFromOperational(v: ServerStatusValue): (c: char)
    requires v != Operational
    ensures c in Keyword(Operational) && c !in Keyword(v)
  {
    match v
    case DegradedPerformance => Lacks('i', Keyword(DegradedPerformance), Keyword(Operational))
    case PartialOutage => Lacks('n', Keyword(PartialOutage), Keyword(Operational))
    case MajorOutage => Lacks('p', Keyword(MajorOutage), Keyword(Operational))
    case UnderMaintenance => Lacks('o', Keyword(UnderMaintenance), Keyword(Operational))
  }

  function ApartFromDegraded(v: ServerStatusValue): (c: char)
    requires v != DegradedPerformance
    ensures c in Keyword(DegradedPerformance) && c !in Keyword(v)
  {
    match v
    case Operational => Lacks('f', Keyword(Operational), Keyword(DegradedPerformance))
    case PartialOutage => Lacks('f', Keyword(PartialOutage), Keyword(DegradedPerformance))
    case MajorOutage => Lacks('f', Keyword(MajorOutage), Keyword(DegradedPerformance))
    case UnderMaintenance => Lacks('f', Keyword(UnderMaintenance), Keyword(DegradedPerformance))
  }

  function ApartFromPartial(v: ServerStatusValue): (c: char)
    requires v != PartialOutage
    ensures c in Keyword(PartialOutage) && c !in Keyword(v)
  {
    match v
    case Operational => Lacks('u', Keyword(Operational), Keyword(PartialOutage))
    case DegradedPerformance => Lacks('u', Keyword(DegradedPerformance), Keyword(PartialOutage))
    case MajorOutage => Lacks('p', Keyword(MajorOutage), Keyword(PartialOutage))
    case UnderMaintenance => Lacks('p', Keyword(UnderMaintenance), Keyword(PartialOutage))
  }

  function ApartFromMajor(v: ServerStatusValue): (c: char)
    requires v != MajorOutage
    ensures c in Keyword(MajorOutage) && c !in Keyword(v)
  {
    match v
    case Operational => Lacks('j', Keyword(Operational), Keyword(MajorOutage))
    case DegradedPerformance => Lacks('j', Keyword(DegradedPerformance), Keyword(MajorOutage))
    case PartialOutage => Lacks('j', Keyword(PartialOutage), Keyword(MajorOutage))
    case UnderMaintenance => Lacks('j', Keyword(UnderMaintenance), Keyword(MajorOutage))
  }

  function ApartFromMaintenance(v: ServerStatusValue): (c: char)
    requires v != UnderMaintenance
    ensures c in Keyword(UnderMaintenance) && c !in Keyword(v)
  {
    match v
    case Operational => Lacks('d', Keyword(Operational), Keyword(UnderMaintenance))
    case DegradedPerformance => Lacks('u', Keyword(DegradedPerformance), Keyword(UnderMaintenance))
    case PartialOutage => Lacks('d', Keyword(PartialOutage), Keyword(UnderMaintenance))
    case MajorOutage => Lacks('d', Keyword(MajorOutage), Keyword(UnderMaintenance))
  }

  /** `c`, once checked to occur in `inner` and not in `outer`. */
  function Lacks(c: char, outer: string, inner: string): (r: char)
    requires c in inner && c !in outer
    ensures r == c
  {
    c
  }

  lemma {:induction false} ContainsKeepsChars(s: string, t: string, c: char)
    requires Contains(s, t) && c in t
    ensures c in s
    decreases |s|
  {
    if StartsWith(s, t) {
      assert s[..|t|] == t;
      var i :| 0 <= i < |t| && t[i] == c;
      assert s[i] == c;
    } else {
      ContainsKeepsChars(s[1..], t, c);
      var i :| 0 <= i < |s[1..]| && s[1..][i] == c;
      assert s[i + 1] == c;
    }
  }

  /** The exact-match test is subsumed by the substring search: the parser
      always answers the first keyword, in the fixed order, that occurs in the
      normalised text. */
  lemma ParseIsFirstContained(answer: string)
    ensures ParseServerStatus(answer) == FirstContained(ToLower(Trim(answer)), StatusOrder)
  {
    var t := ToLower(Trim(answer));
    var e := ExactStatus(t);
    if e.Some? {
      var v := e.value;
      forall w | w != v
        ensures !Contains(t, Keyword(w))
      {
        KeywordsDoNotNest(v, w);
      }
      ContainsAt(t, t, 0);
      assert t[0..|t|] == t;
      StatusOrderComplete(v);
      var f := FirstContained(t, StatusOrder);
      assert f.Some?;
    }
  }

  /** The position of a status in the parser's fixed order. */
  function StatusRank(v: ServerStatusValue): (k: nat)
    ensures k < |StatusOrder| && StatusOrder[k] == v
  {
    match v
    case Operational => 0
    case DegradedPerformance => 1
    case PartialOutage => 2
    case MajorOutage => 3
    case UnderMaintenance => 4
  }

  /** When several keywords occur in the answer, the one earliest in the
      fixed order wins: the result occurs, and every keyword that occurs
      ranks no earlier than it. */
  lemma ParseTakesEarliest(answer: string, v: ServerStatusValue)
    requires Contains(ToLower(Trim(answer)), Keyword(v))
    ensures var r := ParseServerStatus(answer);
      && r.Some? && Contains(ToLower(Trim(answer)), Keyword(r.value))
      && StatusRank(r.value) <= StatusRank(v)
  {
    ParseIsFirstContained(answer);
    FirstContainedEarliest(ToLower(Trim(answer)), v);
  }

  /** The substring search over the fixed order finds a status whenever one
      occurs, and none it finds ranks later than an occurring one. */
  lemma FirstContainedEarliest(t: string, v: ServerStatusValue)
    requires Contains(t, Keyword(v))
    ensures var r := FirstContained(t, StatusOrder);
      r.Some? && StatusRank(r.value) <= StatusRank(v)
  {
    var k := StatusRank(v);
    assert StatusOrder[k] == v;
    var r := FirstContained(t, StatusOrder);
    var i :| 0 <= i < |StatusOrder| && StatusOrder[i] == r.value && NoneContainedBefore(t, StatusOrder, i);
    assert i <= k;
    assert StatusRank(r.value) == i;
  }

  /** Every keyword reads back as its own status. */
  lemma KeywordRoundTrip(v: ServerStatusValue)
    ensures ParseServerStatus(Keyword(v)) == Some(v)
  {
    KeywordIsLowerWord(v);
    LowerWordParses(Keyword(v), v);
  }

  lemma LowerWordParses(k: string, v: ServerStatusValue)
    requires LowerWord(k) && |k| > 0 && Keyword(v) == k
    ensures ParseServerStatus(k) == Some(v)
  {
    assert !IsWhitespace(k[0]) && !IsWhitespace(k[|k| - 1]);
    TrimKeepsTrimmed(k);
    LowerWordLowers(k);
    assert ToLower(Trim(k)) == Keyword(v);
  }

  /** A word of small letters and underscores lower-cases to itself. */
  lemma LowerWordLowers(k: string)
    requires LowerWord(k)
    ensures ToLower(k) == k
  {
    var t := ToLower(k);
    forall i | 0 <= i < |k|
      ensures t[i] == k[i]
    {
      assert 'a' <= k[i] <= 'z' || k[i] == '_';
    }
  }

  /** Small letters and underscores only. */
  predicate LowerWord(s: string) {
    forall i :: 0 <= i < |s| ==> 'a' <= s[i] <= 'z' || s[i] == '_'
  }

  lemma KeywordIsLowerWord(v: ServerStatusValue)
    ensures LowerWord(Keyword(v)) && |Keyword(v)| > 0
  {
    match v
    case Operational => assert LowerWord("operational");
    case DegradedPerformance => assert LowerWord("degraded_performance");
    case PartialOutage => assert LowerWord("partial_outage");
    case MajorOutage => assert LowerWord("major_outage");
    case UnderMaintenance => assert LowerWord("under_maintenance");
  }

  /** The status fetch: a thrown call gives nothing, an answer is parsed. */
  function FetchServerStatus(response: Outcome<string>): (r: Option<ServerStatusValue>)
    ensures response.Threw? ==> r.None?
    ensures r.Some? ==> response.Returned? && Contains(ToLower(Trim(response.value)), Keyword(r.value))
    ensures response.Returned? ==> r == ParseServerStatus(response.value)
  {
    match response
    case Threw => None
    case Returned(answer) => ParseServerStatus(answer)
  }

  /** The candidate chat partners: every member except the user. */
  function OtherMembers(members: seq<Member>, userCallsign: string): (r: seq<Member>)
    ensures |r| <= |members|
    ensures forall m :: m in r <==> m in members && m.callsign != userCallsign
    decreases |members|
  {
    if |members| == 0 then []
    else (if members[0].callsign != userCallsign then [members[0]] else []) + OtherMembers(members[1..], userCallsign)
  }

  /** Each other member is a candidate exactly as often as the pool holds it. */
  lemma {:induction false} OtherMembersCounts(members: seq<Member>, userCallsign: string)
    ensures forall m ::
      multiset(OtherMembers(members, userCallsign))[m] == if m.callsign != userCallsign then multiset(members)[m] else 0
    decreases |members|
  {
    if |members| > 0 {
      var head := if members[0].callsign != userCallsign then [members[0]] else [];
      assert members == [members[0]] + members[1..];
      assert OtherMembers(members, userCallsign) == head + OtherMembers(members[1..], userCallsign);
      OtherMembersCounts(members[1..], userCallsign);
    }
  }

  /** The candidates keep the pool's order, which decides who the random
      index picks: the candidates of a joined pool are those of the first part
      followed by those of the second. */
  lemma {:induction false} OtherMembersAppend(a: seq<Member>, b: seq<Member>, userCallsign: string)
    ensures OtherMembers(a + b, userCallsign) == OtherMembers(a, userCallsign) + OtherMembers(b, userCallsign)
    decreases |a|
  {
    if |a| > 0 {
      assert (a + b)[1..] == a[1..] + b;
      OtherMembersAppend(a[1..], b, userCallsign);
    } else {
      assert a + b == b;
    }
  }

  const GifLineText: string := "[sent a GIF]"

  /** Whether a message carries a GIF in the sense of `if (msg.gifUrl)`: an
      empty URL counts as none. */
  predicate HasGif(m: ChatMessage) {
    m.gifUrl.Some? && m.gifUrl.value != ""
  }

  /** How a missing message text prints inside a template literal. */
  function TextOrUndefined(message: Option<string>): string {
    match message
    case Some(t) => t
    case None => "undefined"
  }

  /** One line of the prompt's conversation history. */
  function HistoryLine(m: ChatMessage): (line: string)
    ensures StartsWith(line, m.callsign + ": ")
    ensures HasGif(m) ==> line == m.callsign + ": " + GifLineText
    ensures !HasGif(m) && m.message.Some? ==> line == m.callsign + ": " + m.message.value
    ensures !HasGif(m) && m.message.None? ==> line == m.callsign + ": undefined"
  {
    var line := m.callsign + ": " + (if HasGif(m) then GifLineText else TextOrUndefined(m.message));
    assert line[..|m.callsign + ": "|] == m.callsign + ": ";
    line
  }

  /** The number of trailing messages the prompt quotes. */
  const HistoryWindow: nat := 5

  /** `chatHistory.slice(-5).map(line)`: one line per message of the last
      five, oldest first. */
  function HistoryLines(history: seq<ChatMessage>): (r: seq<string>)
    ensures |r| == if |history| < HistoryWindow then |history| else HistoryWindow
    ensures forall i :: 0 <= i < |r| ==> r[i] == HistoryLine(history[|history| - |r| + i])
  {
    var tail := if |history| < HistoryWindow then history else history[|history| - HistoryWindow..];
    seq(|tail|, i requires 0 <= i < |tail| => HistoryLine(tail[i]))
  }

  /** The history the prompt carries depends only on the last five messages:
      anything earlier is forgotten. */
  lemma HistoryForgetsOlder(older: seq<ChatMessage>, recent: seq<ChatMessage>)
    requires |recent| >= HistoryWindow
    ensures HistoryLines(older + recent) == HistoryLines(recent)
  {
    var a := HistoryLines(older + recent);
    var b := HistoryLines(recent);
    forall i | 0 <= i < |a|
      ensures a[i] == b[i]
    {
      assert (older + recent)[|older + recent| - |a| + i] == recent[|recent| - |b| + i];
    }
  }

  /** The conversation history block of the prompt: the history lines
      joined by newlines, so it opens with the oldest quoted message's
      line. */
  function HistoryText(history: seq<ChatMessage>): (t: string)
    ensures |history| == 0 ==> t == ""
    ensures |history| == 1 ==> t == HistoryLine(history[0])
    ensures |history| >= 2 ==>
      t == HistoryLine(history[|history| - |HistoryLines(history)|]) + "\n" + Join(HistoryLines(history)[1..], "\n")
    ensures |history| > 0 ==> StartsWith(t, history[|history| - |HistoryLines(history)|].callsign + ": ")
  {
    var lines := HistoryLines(history);
    if |lines| > 0 then
      JoinStartsWith(lines, "\n");
      Join(lines, "\n")
    else Join(lines, "\n")
  }

  /** The joined history starts with its first line. */
  lemma JoinStartsWith(parts: seq<string>, sep: string)
    requires |parts| > 0
    ensures StartsWith(Join(parts, sep), parts[0])
  {
    var j := Join(parts, sep);
    if |parts| > 1 {
      assert j == parts[0] + (sep + Join(parts[1..], sep));
      assert j[..|parts[0]|] == parts[0];
    }
  }

  /** An answer that is exactly a status keyword is fetched as that status,
      and a thrown call fetches nothing. */
  lemma FetchReadsKeyword(v: ServerStatusValue)
    ensures FetchServerStatus(Returned(Keyword(v))) == Some(v)
    ensures FetchServerStatus(Threw).None?
  {
    KeywordRoundTrip(v);
  }

  const SystemCallsign: string := "System"
  const ApologyText: string := "Sorry, comms are scrambled right now. Try again later."
  const SystemAvatar: string := "https://picsum.photos/seed/System/100/100"

  /** A chat reply. `pick` stands for `Math.floor(Math.random() * n)` over the
      `n` other members, `reply` for the generator's answer and `timestamp`
      for the formatted clock time. With no other member there is no reply;
      an empty answer gives no reply; a thrown call gives the system apology;
      otherwise the chosen member, never the user, answers with the trimmed
      text and its own avatar. */
  function ChatResponse(members: seq<Member>, userCallsign: string, pick: nat, reply: Outcome<string>, timestamp: string): (r: Option<ChatMessage>)
    requires pick < |OtherMembers(members, userCallsign)| || |OtherMembers(members, userCallsign)| == 0
    ensures |OtherMembers(members, userCallsign)| == 0 ==> r.None?
    ensures |OtherMembers(members, userCallsign)| > 0 && reply.Threw? ==>
      r == Some(ChatMessage(SystemCallsign, Some(ApologyText), None, false, timestamp, SystemAvatar, None))
    ensures reply.Returned? && Trim(reply.value) == "" ==> r.None?
    ensures |OtherMembers(members, userCallsign)| > 0 && reply.Returned? && Trim(reply.value) != "" ==> r.Some?
    ensures r.Some? && reply.Returned? ==>
      var who := OtherMembers(members, userCallsign)[pick];
      && who in members
      && r.value.callsign == who.callsign && r.value.callsign != userCallsign
      && r.value.message == Some(Trim(reply.value)) && Trim(reply.value) != ""
      && r.value.avatarUrl == who.avatarUrl && r.value.timestamp == timestamp
      && !r.value.isUser && r.value.gifUrl.None? && r.value.status.None?
  {
    var others := OtherMembers(members, userCallsign);
    if |others| == 0 then None
    else
      var who := others[pick];
      assert who in others;
      match reply
      case Threw => Some(ChatMessage(SystemCallsign, Some(ApologyText), None, false, timestamp, SystemAvatar, None))
      case Returned(text) =>
        if Trim(text) == "" then None
        else Some(ChatMessage(who.callsign, Some(Trim(text)), None, false, timestamp, who.avatarUrl, None))
  }
}
