/** The dialogue tab (`renderDialogue`): the log of messages between the
    user ("Sho") and the agent ("Lumi"). */
module Dialogue {
  import opened Wrappers
  import opened Snapshot
  import opened Dom

  const NoMessagesText := "尚無通訊記錄"

  /** An item of the chat list: the placeholder shown when there is no
      message, or a message with its CSS role class, its speaker, its time
      (the locale time of `timestamp`) and its content. */
  datatype ChatItem =
    | NoMessages(text: string)
    | MessageItem(roleClass: string, speaker: string, timestamp: string, content: string)

  function Speaker(role: Option<string>): string {
    if role == Some("user") then "Sho" else "Lumi"
  }

  function ItemOf(m: Message): ChatItem {
    MessageItem(Shown(m.role), Speaker(m.role), m.timestamp, m.content)
  }

  predicate NoDialogue(dialogue: Option<seq<Message>>) {
    dialogue.None? || dialogue.value == []
  }

  function MessageItems(ms: seq<Message>): (items: seq<ChatItem>)
    ensures |items| == |ms|
  {
    seq(|ms|, k requires 0 <= k < |ms| => ItemOf(ms[k]))
  }

  /** What the chat list holds after `renderDialogue`. */
  function ChatItems(dialogue: Option<seq<Message>>): seq<ChatItem> {
    if NoDialogue(dialogue) then [NoMessages(NoMessagesText)] else MessageItems(dialogue.value)
  }

  /** `renderDialogue`: clears the list, then shows the placeholder or one
      item per message. */
  method RenderDialogue(dialogue: Option<seq<Message>>, chat: Container<ChatItem>)
    modifies chat
    ensures chat.items == ChatItems(dialogue)
  {
    chat.Clear();
    if NoDialogue(dialogue) {
      chat.Append(NoMessages(NoMessagesText));
      return;
    }
    var ms := dialogue.value;
    var i := 0;
    while i < |ms|
      invariant 0 <= i <= |ms|
      invariant chat.items == MessageItems(ms[..i])
    {
      chat.Append(ItemOf(ms[i]));
      assert chat.items == MessageItems(ms[..i + 1]);
      i := i + 1;
    }
    assert ms[..i] == ms;
  }

  /** An absent or empty log shows exactly one placeholder and no message;
      otherwise there is one message item per message, in order, and no
      placeholder. */
  lemma DialogueFallback(dialogue: Option<seq<Message>>)
    ensures NoDialogue(dialogue) ==> ChatItems(dialogue) == [NoMessages(NoMessagesText)]
    ensures !NoDialogue(dialogue) ==>
      |ChatItems(dialogue)| == |dialogue.value|
      && forall k :: 0 <= k < |dialogue.value| ==>
           ChatItems(dialogue)[k].MessageItem? && ChatItems(dialogue)[k].content == dialogue.value[k].content
  {
  }

  /** The speaker is "Sho" exactly for the role "user" and "Lumi" for every
      other role, including none. */
  lemma SpeakerRule(m: Message)
    ensures ItemOf(m).speaker == "Sho" <==> m.role == Some("user")
    ensures ItemOf(m).speaker != "Sho" ==> ItemOf(m).speaker == "Lumi"
  {
  }
}
