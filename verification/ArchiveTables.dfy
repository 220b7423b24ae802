/** The tables of the archive, and the tombstones that pass from parents to children. */
module ArchiveTables {
  import opened Bytes
  import opened RevisionGraph
  import opened TextOrder

  /** Whole seconds after 1970; 0 is the zero time. */
  type Time = nat

  datatype Tombstone = Live | Deleted(at: Time, source: Text, reason: Text)

  function Ascii(s: string): Text {
    seq(|s|, i requires 0 <= i < |s| => s[i] as int % 256)
  }

  const PARENT_FOLDER := Ascii("parent_folder_deleted")
  const PARENT_CHAT := Ascii("parent_chat_deleted")
  const PARENT_TOPIC := Ascii("parent_topic_deleted")
  const PARENT_GROUP := Ascii("parent_group_deleted")

  predicate IsParentReason(reason: Text) {
    reason in {PARENT_FOLDER, PARENT_CHAT, PARENT_TOPIC, PARENT_GROUP}
  }

  /** Chat rows are keyed by number, and children name a chat by text. */
  datatype Jids = Jids(parse: Text -> int, decimal: int -> Text)

  ghost predicate SoundJids(j: Jids) {
    forall n :: j.parse(j.decimal(n)) == n && !IsBlank(j.decimal(n))
  }

  /** A JID spelled as its number is written; "007" is not. */
  predicate Canonical(j: Jids, jid: Text) {
    j.decimal(j.parse(jid)) == jid
  }

  /** A row of any table, with its tombstone. */
  datatype Row<+T> = Row(value: T, tomb: Tombstone)

  datatype Chat = Chat(name: Text, messageCount: nat, lastMessageAt: Time)
  datatype Folder = Folder(title: Text)
  datatype Membership = Membership(position: int)
  datatype Topic = Topic(title: Text)
  datatype Group = Group(name: Text)
  datatype Participant = Participant(name: Text)

  datatype MembershipKey = MembershipKey(folder: Text, chat: Text)
  datatype TopicKey = TopicKey(chat: Text, topic: Text)
  datatype ParticipantKey = ParticipantKey(group: Text, user: Text)

  /** What a message says, as far as its revisions record it. */
  datatype Content = Content(chat: Text, chatName: Text, messageId: Text, sender: Text, ts: Time, editTs: Time, text: Text,
                             mediaType: Text, mediaTitle: Text, mediaUrl: Text, topic: Text, metadata: Text)

  /** A stored message; its media path and size and its source id are not part of a revision's payload. */
  datatype Message = Message(content: Content, tomb: Tombstone, sourcePk: int, mediaPath: Text, mediaSize: int)

  datatype Tables = Tables(
    chats: map<int, Row<Chat>>, folders: map<Text, Row<Folder>>, memberships: map<MembershipKey, Row<Membership>>,
    topics: map<TopicKey, Row<Topic>>, groups: map<Text, Row<Group>>, participants: map<ParticipantKey, Row<Participant>>,
    messages: map<Id, Message>)

  // Who is under a deleted parent.

  predicate ChatDeleted(chats: map<int, Row<Chat>>, j: Jids, jid: Text) {
    Canonical(j, jid) && j.parse(jid) in chats && chats[j.parse(jid)].tomb.Deleted?
  }

  predicate FolderDeleted(folders: map<Text, Row<Folder>>, id: Text) {
    id in folders && folders[id].tomb.Deleted?
  }

  predicate TopicDeleted(topics: map<TopicKey, Row<Topic>>, k: TopicKey) {
    k.topic != [] && k in topics && topics[k].tomb.Deleted?
  }

  predicate GroupDeleted(groups: map<Text, Row<Group>>, id: Text) {
    id in groups && groups[id].tomb.Deleted?
  }

  function TopicOf(m: Message): TopicKey {
    TopicKey(m.content.chat, m.content.topic)
  }

  /** No live row stands under a deleted parent. */
  predicate Settled(t: Tables, j: Jids) {
    && (forall k :: k in t.memberships && t.memberships[k].tomb.Live? ==>
          !FolderDeleted(t.folders, k.folder) && !ChatDeleted(t.chats, j, k.chat))
    && (forall k :: k in t.topics && t.topics[k].tomb.Live? ==> !ChatDeleted(t.chats, j, k.chat))
    && (forall e :: e in t.messages && t.messages[e].tomb.Live? ==>
          !ChatDeleted(t.chats, j, t.messages[e].content.chat) && !TopicDeleted(t.topics, TopicOf(t.messages[e])))
    && (forall k :: k in t.participants && t.participants[k].tomb.Live? ==> !GroupDeleted(t.groups, k.group))
  }
}
