/** Passing deletions from parents to children, everywhere or within the scope of one merge. */
module TombstonePropagation {
  import opened ArchiveTables
  import opened Bytes
  import opened RevisionGraph
  import opened TextOrder
  import opened Wrappers

  /** What a merge batch names. */
  datatype Scope = Scope(chats: set<Text>, folders: set<Text>, topics: set<TopicKey>, groups: set<Text>)

  predicate InChats(scope: Option<Scope>, jid: Text) {
    scope.Some? ==> jid in scope.value.chats
  }

  predicate InFolders(scope: Option<Scope>, id: Text) {
    scope.Some? ==> id in scope.value.folders
  }

  predicate InTopics(scope: Option<Scope>, k: TopicKey) {
    scope.Some? ==> k in scope.value.topics
  }

  predicate InGroups(scope: Option<Scope>, id: Text) {
    scope.Some? ==> id in scope.value.groups
  }

  /** A child takes its parent's time and source, and a reason of its own. */
  function Inherited(parent: Tombstone, reason: Text): Tombstone
    requires parent.Deleted?
  {
    Deleted(parent.at, parent.source, reason)
  }

  // The six statements.

  function FolderStep(t: Tables, scope: Option<Scope>): map<MembershipKey, Row<Membership>> {
    map k | k in t.memberships ::
      var m := t.memberships[k];
      if m.tomb.Live? && InFolders(scope, k.folder) && FolderDeleted(t.folders, k.folder)
      then m.(tomb := Inherited(t.folders[k.folder].tomb, PARENT_FOLDER)) else m
  }

  function MembershipStep(t: Tables, j: Jids, scope: Option<Scope>): map<MembershipKey, Row<Membership>> {
    map k | k in t.memberships ::
      var m := t.memberships[k];
      if m.tomb.Live? && InChats(scope, k.chat) && ChatDeleted(t.chats, j, k.chat)
      then m.(tomb := Inherited(t.chats[j.parse(k.chat)].tomb, PARENT_CHAT)) else m
  }

  function TopicStep(t: Tables, j: Jids, scope: Option<Scope>): map<TopicKey, Row<Topic>> {
    map k | k in t.topics ::
      var c := t.topics[k];
      if c.tomb.Live? && InChats(scope, k.chat) && ChatDeleted(t.chats, j, k.chat)
      then c.(tomb := Inherited(t.chats[j.parse(k.chat)].tomb, PARENT_CHAT)) else c
  }

  function MessageStep(t: Tables, j: Jids, scope: Option<Scope>): map<Id, Message> {
    map e | e in t.messages ::
      var m := t.messages[e];
      if m.tomb.Live? && InChats(scope, m.content.chat) && ChatDeleted(t.chats, j, m.content.chat)
      then m.(tomb := Inherited(t.chats[j.parse(m.content.chat)].tomb, PARENT_CHAT)) else m
  }

  function TopicMessageStep(t: Tables, scope: Option<Scope>): map<Id, Message> {
    map e | e in t.messages ::
      var m := t.messages[e];
      if m.tomb.Live? && InTopics(scope, TopicOf(m)) && TopicDeleted(t.topics, TopicOf(m))
      then m.(tomb := Inherited(t.topics[TopicOf(m)].tomb, PARENT_TOPIC)) else m
  }

  function ParticipantStep(t: Tables, scope: Option<Scope>): map<ParticipantKey, Row<Participant>> {
    map k | k in t.participants ::
      var p := t.participants[k];
      if p.tomb.Live? && InGroups(scope, k.group) && GroupDeleted(t.groups, k.group)
      then p.(tomb := Inherited(t.groups[k.group].tomb, PARENT_GROUP)) else p
  }

  /** One pass: the statements in order, each seeing what the ones before it wrote. */
  function Propagate(t: Tables, j: Jids, scope: Option<Scope>): Tables {
    var a := t.(memberships := FolderStep(t, scope));
    var b := a.(memberships := MembershipStep(a, j, scope));
    var c := b.(topics := TopicStep(b, j, scope));
    var d := c.(messages := MessageStep(c, j, scope));
    var e := d.(messages := TopicMessageStep(d, scope));
    e.(participants := ParticipantStep(e, scope))
  }

  /** One pass over all tables leaves no live row under a deleted parent. */
  lemma PropagateSettles(t: Tables, j: Jids)
    ensures Settled(Propagate(t, j, None), j)
  {
  }

  // Scoped propagation.

  /** A live row under a deleted parent that the scope does not name. */
  predicate MembershipMissed(t: Tables, j: Jids, scope: Scope, k: MembershipKey) {
    && k in t.memberships && t.memberships[k].tomb.Live?
    && (if FolderDeleted(t.folders, k.folder) then k.folder !in scope.folders
        else ChatDeleted(t.chats, j, k.chat) && k.chat !in scope.chats)
  }

  predicate TopicMissed(t: Tables, j: Jids, scope: Scope, k: TopicKey) {
    k in t.topics && t.topics[k].tomb.Live? && ChatDeleted(t.chats, j, k.chat) && k.chat !in scope.chats
  }

  predicate MessageMissed(t: Tables, j: Jids, scope: Scope, e: Id) {
    && e in t.messages && t.messages[e].tomb.Live?
    && var m := t.messages[e];
      if ChatDeleted(t.chats, j, m.content.chat) then m.content.chat !in scope.chats
      else TopicDeleted(t.topics, TopicOf(m)) && TopicOf(m) !in scope.topics
  }

  predicate ParticipantMissed(t: Tables, scope: Scope, k: ParticipantKey) {
    k in t.participants && t.participants[k].tomb.Live? && GroupDeleted(t.groups, k.group) && k.group !in scope.groups
  }

  /** Every live row under a deleted parent is named by the scope. */
  predicate Covered(t: Tables, j: Jids, scope: Scope) {
    && (forall k :: k in t.memberships ==> !MembershipMissed(t, j, scope, k))
    && (forall k :: k in t.topics ==> !TopicMissed(t, j, scope, k))
    && (forall e :: e in t.messages ==> !MessageMissed(t, j, scope, e))
    && (forall k :: k in t.participants ==> !ParticipantMissed(t, scope, k))
  }

  lemma CoveredMemberships(t: Tables, j: Jids, scope: Scope)
    requires Covered(t, j, scope)
    ensures FolderStep(t, Some(scope)) == FolderStep(t, None)
    ensures var a := t.(memberships := FolderStep(t, None)); MembershipStep(a, j, Some(scope)) == MembershipStep(a, j, None)
  {
  }

  lemma CoveredTopics(t: Tables, j: Jids, scope: Scope)
    requires Covered(t, j, scope)
    ensures TopicStep(t, j, Some(scope)) == TopicStep(t, j, None)
    ensures ParticipantStep(t, Some(scope)) == ParticipantStep(t, None)
  {
  }

  lemma CoveredMessages(t: Tables, j: Jids, scope: Scope)
    requires Covered(t, j, scope)
    ensures MessageStep(t, j, Some(scope)) == MessageStep(t, j, None)
    ensures var c := t.(topics := TopicStep(t, j, None), messages := MessageStep(t, j, None));
      TopicMessageStep(c, Some(scope)) == TopicMessageStep(c, None)
  {
    var c := t.(topics := TopicStep(t, j, None), messages := MessageStep(t, j, None));
    forall e | e in c.messages ensures TopicMessageStep(c, Some(scope))[e] == TopicMessageStep(c, None)[e] {
      var m := c.messages[e];
      if m.tomb.Live? && TopicDeleted(c.topics, TopicOf(m)) {
        assert m == t.messages[e] && !ChatDeleted(t.chats, j, m.content.chat);
        assert t.topics[TopicOf(m)].tomb.Deleted?;
      }
    }
  }

  /** A pass reads only the tables its steps name. */
  lemma PropagateParts(t: Tables, j: Jids, scope: Option<Scope>)
    ensures var a := t.(memberships := FolderStep(t, scope));
      var c := t.(topics := TopicStep(t, j, scope), messages := MessageStep(t, j, scope));
      Propagate(t, j, scope) == t.(
        memberships := MembershipStep(a, j, scope), topics := TopicStep(t, j, scope),
        messages := TopicMessageStep(c, scope), participants := ParticipantStep(t, scope))
  {
  }

  /** The scoped pass gives the same tables as the unscoped one exactly when the scope names every row to change. */
  lemma ScopedIsGlobal(t: Tables, j: Jids, scope: Scope)
    ensures Propagate(t, j, Some(scope)) == Propagate(t, j, None) <==> Covered(t, j, scope)
  {
    hide FolderStep, MembershipStep, TopicStep, MessageStep, TopicMessageStep, ParticipantStep, Covered, Propagate;
    PropagateParts(t, j, Some(scope));
    PropagateParts(t, j, None);
    if Covered(t, j, scope) {
      CoveredMemberships(t, j, scope);
      CoveredTopics(t, j, scope);
      CoveredMessages(t, j, scope);
    } else {
      MissedRow(t, j, scope);
    }
  }

  lemma ReasonsDiffer()
    ensures |PARENT_FOLDER| == 21 && |PARENT_CHAT| == 19 && |PARENT_TOPIC| == 20 && |PARENT_GROUP| == 20
    ensures PARENT_FOLDER != PARENT_CHAT && PARENT_CHAT != PARENT_TOPIC
  {
  }

  lemma MissedMembership(t: Tables, j: Jids, scope: Scope, k: MembershipKey)
    requires MembershipMissed(t, j, scope, k)
    ensures Propagate(t, j, Some(scope)) != Propagate(t, j, None)
  {
    hide TopicStep, MessageStep, TopicMessageStep, ParticipantStep, Propagate, ChatDeleted, FolderDeleted;
    PropagateParts(t, j, Some(scope));
    PropagateParts(t, j, None);
    ReasonsDiffer();
    assert Propagate(t, j, Some(scope)).memberships[k] != Propagate(t, j, None).memberships[k];
  }

  lemma MissedTopic(t: Tables, j: Jids, scope: Scope, k: TopicKey)
    requires TopicMissed(t, j, scope, k)
    ensures Propagate(t, j, Some(scope)) != Propagate(t, j, None)
  {
    hide FolderStep, MembershipStep, MessageStep, TopicMessageStep, ParticipantStep, Propagate, ChatDeleted;
    PropagateParts(t, j, Some(scope));
    PropagateParts(t, j, None);
    assert Propagate(t, j, Some(scope)).topics[k] != Propagate(t, j, None).topics[k];
  }

  lemma MissedMessage(t: Tables, j: Jids, scope: Scope, e: Id)
    requires MessageMissed(t, j, scope, e)
    ensures Propagate(t, j, Some(scope)) != Propagate(t, j, None)
  {
    hide FolderStep, MembershipStep, ParticipantStep, Propagate, ChatDeleted;
    PropagateParts(t, j, Some(scope));
    PropagateParts(t, j, None);
    ReasonsDiffer();
    assert Propagate(t, j, Some(scope)).messages[e] != Propagate(t, j, None).messages[e];
  }

  lemma MissedParticipant(t: Tables, j: Jids, scope: Scope, k: ParticipantKey)
    requires ParticipantMissed(t, scope, k)
    ensures Propagate(t, j, Some(scope)) != Propagate(t, j, None)
  {
    hide FolderStep, MembershipStep, TopicStep, MessageStep, TopicMessageStep, Propagate, GroupDeleted;
    PropagateParts(t, j, Some(scope));
    PropagateParts(t, j, None);
    assert Propagate(t, j, Some(scope)).participants[k] != Propagate(t, j, None).participants[k];
  }

  lemma MissedRow(t: Tables, j: Jids, scope: Scope)
    requires !Covered(t, j, scope)
    ensures Propagate(t, j, Some(scope)) != Propagate(t, j, None)
  {
    hide Propagate, MembershipMissed, TopicMissed, MessageMissed, ParticipantMissed;
    if k :| k in t.memberships && MembershipMissed(t, j, scope, k) {
      MissedMembership(t, j, scope, k);
    } else if k :| k in t.topics && TopicMissed(t, j, scope, k) {
      MissedTopic(t, j, scope, k);
    } else if e :| e in t.messages && MessageMissed(t, j, scope, e) {
      MissedMessage(t, j, scope, e);
    } else {
      var k :| k in t.participants && ParticipantMissed(t, scope, k);
      MissedParticipant(t, j, scope, k);
    }
  }

  // What a batch may change without the scope missing a row.

  predicate LiveMembership(t: Tables, k: MembershipKey) {
    k in t.memberships && t.memberships[k].tomb.Live?
  }

  predicate LiveTopic(t: Tables, k: TopicKey) {
    k in t.topics && t.topics[k].tomb.Live?
  }

  predicate LiveParticipant(t: Tables, k: ParticipantKey) {
    k in t.participants && t.participants[k].tomb.Live?
  }

  /** A live message that stands where it stood before, live. */
  predicate Stayed(t: Tables, u: Tables, e: Id) {
    && e in t.messages && e in u.messages && t.messages[e].tomb.Live?
    && TopicOf(t.messages[e]) == TopicOf(u.messages[e])
  }

  /** From `t` to `u`, only rows the scope names were deleted as parents or came to live as children. */
  ghost predicate Touched(t: Tables, u: Tables, j: Jids, scope: Scope) {
    && (forall jid :: ChatDeleted(u.chats, j, jid) && !ChatDeleted(t.chats, j, jid) ==> jid in scope.chats)
    && (forall f :: FolderDeleted(u.folders, f) && !FolderDeleted(t.folders, f) ==> f in scope.folders)
    && (forall k :: TopicDeleted(u.topics, k) && !TopicDeleted(t.topics, k) ==> k in scope.topics)
    && (forall g :: GroupDeleted(u.groups, g) && !GroupDeleted(t.groups, g) ==> g in scope.groups)
    && (forall k :: LiveMembership(u, k) && !LiveMembership(t, k) ==>
          k.folder in scope.folders && k.chat in scope.chats)
    && (forall k :: LiveTopic(u, k) && !LiveTopic(t, k) ==> k.chat in scope.chats)
    && (forall k :: LiveParticipant(u, k) && !LiveParticipant(t, k) ==> k.group in scope.groups)
    && (forall e :: e in u.messages && u.messages[e].tomb.Live? && !Stayed(t, u, e) ==>
          && u.messages[e].content.chat in scope.chats
          && (u.messages[e].content.topic != [] ==> TopicOf(u.messages[e]) in scope.topics))
  }

  /**
   After a batch on a settled archive the scoped pass gives the same tables as the unscoped one, and leaves no live row
   under a deleted parent anywhere.
   */
  lemma BatchScopeSuffices(t: Tables, u: Tables, j: Jids, scope: Scope)
    requires Settled(t, j) && Touched(t, u, j, scope)
    ensures Propagate(u, j, Some(scope)) == Propagate(u, j, None) && Settled(Propagate(u, j, Some(scope)), j)
  {
    hide Propagate, ChatDeleted, FolderDeleted, GroupDeleted, TopicDeleted;
    forall e | e in u.messages && u.messages[e].tomb.Live?
      ensures ChatDeleted(u.chats, j, u.messages[e].content.chat) ==> u.messages[e].content.chat in scope.chats
      ensures TopicDeleted(u.topics, TopicOf(u.messages[e])) ==> TopicOf(u.messages[e]) in scope.topics
    {
      OneMessage(t, u, j, scope, e);
    }
    forall e | e in u.messages ensures !MessageMissed(u, j, scope, e) {
    }
    assert Covered(u, j, scope);
    ScopedIsGlobal(u, j, scope);
    PropagateSettles(u, j);
  }

  lemma OneMessage(t: Tables, u: Tables, j: Jids, scope: Scope, e: Id)
    requires Settled(t, j) && Touched(t, u, j, scope) && e in u.messages && u.messages[e].tomb.Live?
    ensures ChatDeleted(u.chats, j, u.messages[e].content.chat) ==> u.messages[e].content.chat in scope.chats
    ensures TopicDeleted(u.topics, TopicOf(u.messages[e])) ==> TopicOf(u.messages[e]) in scope.topics
  {
    hide ChatDeleted;
  }
}
