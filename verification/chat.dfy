/** The comms channel: how transcript lines are made, what sending a text or
    a GIF does, and what the arrival (or absence) of a reply does to the
    transcript. */
module Chat {
  import opened Common
  import opened Text
  import opened Types
  import GeminiService

  const DefaultAvatar: string := "https://picsum.photos/seed/default/100/100"

  /** The picture a user's own lines carry. */
  function UserAvatar(callsign: string): string {
    "https://picsum.photos/seed/" + callsign + "/100/100"
  }

  /** The position of the last member with `callsign`, or -1. A map built
      from the member list keeps the last member of each callsign, so this is
      the member the map answers with. */
  function LastNamed(members: seq<Member>, callsign: string): (k: int)
    ensures -1 <= k < |members|
    ensures k >= 0 ==> members[k].callsign == callsign
    ensures forall j :: k < j < |members| ==> members[j].callsign != callsign
    decreases |members|
  {
    if |members| == 0 then -1
    else if members[|members| - 1].callsign == callsign then |members| - 1
    else LastNamed(members[..|members| - 1], callsign)
  }

  /** Position `k` holds the last member with `callsign`. */
  predicate IsLastNamed(members: seq<Member>, callsign: string, k: nat)
    requires k < |members|
  {
    members[k].callsign == callsign && forall j :: k < j < |members| ==> members[j].callsign != callsign
  }

  /** The picture a line gets: the user's own seed picture, or for anyone
      else the picture of the member with that callsign when it is set, and
      the default picture otherwise. */
  function AvatarOf(members: seq<Member>, isUser: bool, sender: string): (url: string)
    ensures isUser ==> url == UserAvatar(sender)
    ensures !isUser && (forall i :: 0 <= i < |members| ==> members[i].callsign != sender) ==> url == DefaultAvatar
    ensures !isUser && url != DefaultAvatar ==>
      exists i :: 0 <= i < |members| && members[i].callsign == sender && members[i].avatarUrl == url
    ensures !isUser ==> forall k :: 0 <= k < |members| && IsLastNamed(members, sender, k) ==>
      url == if members[k].avatarUrl != "" then members[k].avatarUrl else DefaultAvatar
  {
    if isUser then UserAvatar(sender)
    else
      var k := LastNamed(members, sender);
      if k >= 0 && members[k].avatarUrl != "" then members[k].avatarUrl else DefaultAvatar
  }

  /** What a line carries: a text, a GIF, or (as the spread allows) both. */
  datatype Content = Content(message: Option<string>, gifUrl: Option<string>)

  /** A new transcript line. The user's lines start out sent; other lines
      carry no delivery status. */
  function CreateMessage(members: seq<Member>, content: Content, isUser: bool, sender: string, timestamp: string): (m: ChatMessage)
    ensures m.callsign == sender && m.isUser == isUser && m.timestamp == timestamp
    ensures m.message == content.message && m.gifUrl == content.gifUrl
    ensures m.status == if isUser then Some(Sent) else None
    ensures m.avatarUrl == AvatarOf(members, isUser, sender)
  {
    ChatMessage(sender, content.message, content.gifUrl, isUser, timestamp,
                AvatarOf(members, isUser, sender), if isUser then Some(Sent) else None)
  }

  /** A created line reads in the reply prompt's history as its sender's
      callsign followed by its text, or by the GIF marker when it carries a
      GIF. */
  lemma CreatedLineInHistory(members: seq<Member>, content: Content, isUser: bool, sender: string, timestamp: string)
    ensures var m := CreateMessage(members, content, isUser, sender, timestamp);
      && (content.gifUrl.Some? && content.gifUrl.value != "" ==>
            GeminiService.HistoryLine(m) == sender + ": " + GeminiService.GifLineText)
      && (content.gifUrl.None? && content.message.Some? ==>
            GeminiService.HistoryLine(m) == sender + ": " + content.message.value)
  {
  }

  datatype ChatScreen = ChatScreen(
    messages: seq<ChatMessage>,
    draft: string,
    isReplying: bool,
    isGifModalOpen: bool,
    gifSearchTerm: string,
    gifResults: seq<string>)

  /** Every line of the user's becomes read; the other lines stay as they are. */
  function MarkRead(messages: seq<ChatMessage>): (r: seq<ChatMessage>)
    ensures |r| == |messages|
    ensures forall i :: 0 <= i < |messages| ==> r[i].isUser == messages[i].isUser
    ensures forall i :: 0 <= i < |messages| && messages[i].isUser ==> r[i] == messages[i].(status := Some(Read))
    ensures forall i :: 0 <= i < |messages| && !messages[i].isUser ==> r[i] == messages[i]
  {
    seq(|messages|, i requires 0 <= i < |messages| =>
      if messages[i].isUser then messages[i].(status := Some(Read)) else messages[i])
  }

  /** Whether every line of the user's has been read. */
  predicate AllUserLinesRead(messages: seq<ChatMessage>) {
    forall i :: 0 <= i < |messages| && messages[i].isUser ==> messages[i].status == Some(Read)
  }

  /** Marking read settles the transcript: afterwards every user line is
      read, and marking again changes nothing. */
  lemma MarkReadSettles(messages: seq<ChatMessage>)
    ensures AllUserLinesRead(MarkRead(messages))
    ensures MarkRead(MarkRead(messages)) == MarkRead(messages)
  {
    var once := MarkRead(messages);
    var twice := MarkRead(once);
    forall i | 0 <= i < |once|
      ensures twice[i] == once[i]
    {
      if once[i].isUser {
        assert once[i] == messages[i].(status := Some(Read));
      }
    }
  }

  /** The end of a reply round. A reply is rebuilt as a fresh non-user line
      from its callsign and text, after the transcript is marked read; with
      no reply the transcript is only marked read. Either way the screen
      stops waiting. */
  function ReceiveReply(screen: ChatScreen, members: seq<Member>, reply: Option<ChatMessage>, timestamp: string): (r: ChatScreen)
    ensures !r.isReplying
    ensures r.draft == screen.draft && r.isGifModalOpen == screen.isGifModalOpen
    ensures r.gifSearchTerm == screen.gifSearchTerm && r.gifResults == screen.gifResults
    ensures reply.None? ==> r.messages == MarkRead(screen.messages)
    ensures reply.Some? ==>
      && |r.messages| == |screen.messages| + 1
      && r.messages[..|screen.messages|] == MarkRead(screen.messages)
      && r.messages[|screen.messages|]
         == CreateMessage(members, Content(reply.value.message, None), false, reply.value.callsign, timestamp)
  {
    var read := MarkRead(screen.messages);
    var messages := match reply
      case None => read
      case Some(a) => read + [CreateMessage(members, Content(a.message, None), false, a.callsign, timestamp)];
    assert reply.Some? ==> messages[..|screen.messages|] == read;
    screen.(messages := messages, isReplying := false)
  }

  /** Sending the draft. A blank draft, or a reply still pending, changes
      nothing; otherwise the trimmed text is appended as a sent user line,
      the draft clears and the screen waits for a reply. */
  function SendMessage(screen: ChatScreen, members: seq<Member>, userCallsign: string, timestamp: string): (r: ChatScreen)
    ensures Trim(screen.draft) == "" || screen.isReplying ==> r == screen
    ensures !(Trim(screen.draft) == "" || screen.isReplying) ==>
      && r.messages == screen.messages
         + [CreateMessage(members, Content(Some(Trim(screen.draft)), None), true, userCallsign, timestamp)]
      && r.draft == "" && r.isReplying
      && r.isGifModalOpen == screen.isGifModalOpen && r.gifSearchTerm == screen.gifSearchTerm
      && r.gifResults == screen.gifResults
  {
    var text := Trim(screen.draft);
    if text == "" || screen.isReplying then screen
    else
      var line := CreateMessage(members, Content(Some(text), None), true, userCallsign, timestamp);
      screen.(messages := screen.messages + [line], draft := "", isReplying := true)
  }

  /** Sending a GIF: the GIF is appended as a sent user line, the picker
      closes and forgets its search, and the screen waits for a reply. There
      is no pending-reply guard here, unlike text messages. */
  function SendGif(screen: ChatScreen, members: seq<Member>, userCallsign: string, gifUrl: string, timestamp: string): (r: ChatScreen)
    ensures r.messages == screen.messages + [CreateMessage(members, Content(None, Some(gifUrl)), true, userCallsign, timestamp)]
    ensures !r.isGifModalOpen && r.gifResults == [] && r.gifSearchTerm == "" && r.isReplying
    ensures r.draft == screen.draft
  {
    var line := CreateMessage(members, Content(None, Some(gifUrl)), true, userCallsign, timestamp);
    screen.(messages := screen.messages + [line], isGifModalOpen := false, gifResults := [], gifSearchTerm := "", isReplying := true)
  }

  /** A GIF round: the prompt's history ends with the GIF marker under the
      user's callsign, and once the round ends (with or without a reply) the
      GIF line is still there, read, carrying the GIF and no text. */
  lemma SendGifThenReply(screen: ChatScreen, members: seq<Member>, userCallsign: string, gifUrl: string,
                         sentAt: string, reply: Option<ChatMessage>, repliedAt: string)
    requires gifUrl != ""
    ensures var sent := SendGif(screen, members, userCallsign, gifUrl, sentAt);
      var history := GeminiService.HistoryLines(sent.messages);
      var done := ReceiveReply(sent, members, reply, repliedAt);
      var n := |screen.messages|;
      && history[|history| - 1] == userCallsign + ": " + GeminiService.GifLineText
      && |done.messages| >= n + 1
      && done.messages[n].isUser && done.messages[n].status == Some(Read)
      && done.messages[n].gifUrl == Some(gifUrl) && done.messages[n].message.None?
      && !done.isReplying && !done.isGifModalOpen
  {
    var sent := SendGif(screen, members, userCallsign, gifUrl, sentAt);
    var n := |screen.messages|;
    CreatedLineInHistory(members, Content(None, Some(gifUrl)), true, userCallsign, sentAt);
    var done := ReceiveReply(sent, members, reply, repliedAt);
    assert sent.messages[n].isUser;
    if reply.Some? {
      assert done.messages[..|sent.messages|] == MarkRead(sent.messages);
      assert done.messages[n] == MarkRead(sent.messages)[n];
    }
  }

  /** One full round: the user sends a text and a member answers. The
      transcript grows by two lines, every user line (the new one included,
      carrying the trimmed text) is read, and the last line is the answer,
      which is not the user's and is not sent under the user's callsign. */
  lemma SendAndReplyRound(screen: ChatScreen, members: seq<Member>, userCallsign: string, pick: nat,
                          answer: string, sentAt: string, repliedAt: string)
    requires Trim(screen.draft) != "" && !screen.isReplying
    requires pick < |GeminiService.OtherMembers(members, userCallsign)|
    requires Trim(answer) != ""
    ensures var sent := SendMessage(screen, members, userCallsign, sentAt);
      var reply := GeminiService.ChatResponse(members, userCallsign, pick, Returned(answer), repliedAt);
      var done := ReceiveReply(sent, members, reply, repliedAt);
      var n := |screen.messages|;
      && |done.messages| == n + 2
      && AllUserLinesRead(done.messages[..n + 1])
      && done.messages[n].isUser && done.messages[n].message == Some(Trim(screen.draft))
      && !done.messages[n + 1].isUser
      && done.messages[n + 1].callsign != userCallsign
      && done.messages[n + 1].message == Some(Trim(answer))
      && !done.isReplying && done.draft == ""
  {
    var sent := SendMessage(screen, members, userCallsign, sentAt);
    var reply := GeminiService.ChatResponse(members, userCallsign, pick, Returned(answer), repliedAt);
    var done := ReceiveReply(sent, members, reply, repliedAt);
    MarkReadSettles(sent.messages);
    assert done.messages[..|sent.messages|] == MarkRead(sent.messages);
  }

  /** The apology's own picture never reaches the transcript: the screen
      rebuilds the line from its callsign, and with no member called
      "System" it gets the default picture. */
  lemma ApologyShowsDefaultAvatar(screen: ChatScreen, members: seq<Member>, userCallsign: string, pick: nat, repliedAt: string)
    requires pick < |GeminiService.OtherMembers(members, userCallsign)|
    requires forall i :: 0 <= i < |members| ==> members[i].callsign != GeminiService.SystemCallsign
    ensures var reply := GeminiService.ChatResponse(members, userCallsign, pick, Threw, repliedAt);
      var done := ReceiveReply(screen, members, reply, repliedAt);
      && done.messages[|screen.messages|].callsign == GeminiService.SystemCallsign
      && done.messages[|screen.messages|].message == Some(GeminiService.ApologyText)
      && done.messages[|screen.messages|].avatarUrl == DefaultAvatar
      && done.messages[|screen.messages|].avatarUrl != GeminiService.SystemAvatar
  {
    var reply := GeminiService.ChatResponse(members, userCallsign, pick, Threw, repliedAt);
    assert |GeminiService.SystemAvatar| != |DefaultAvatar|;
  }
}
