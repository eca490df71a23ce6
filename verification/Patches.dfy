/** The patches the client builds (appstate/encode.go) and why they are safe to send. */
module Patches {
  import opened ByteStrings
  import opened Decimal
  import opened Jids
  import LTHash
  import opened HashStates
  import opened AppState
  import opened Encoding

  const INDEX_MUTE := Ascii("mute")
  const INDEX_PIN := Ascii("pin_v1")
  const INDEX_ARCHIVE := Ascii("archive")
  const INDEX_DELETE_CHAT := Ascii("deleteChat")
  const INDEX_STAR := Ascii("star")
  const INDEX_MARK_CHAT_AS_READ := Ascii("markChatAsRead")
  const INDEX_SETTING_PUSH_NAME := Ascii("setting_pushName")
  const INDEX_LABEL_EDIT := Ascii("label_edit")
  const INDEX_LABEL_ASSOCIATION_CHAT := Ascii("label_jid")
  const INDEX_LABEL_ASSOCIATION_MESSAGE := Ascii("label_message")

  const ZERO := Ascii("0")
  const ONE := Ascii("1")

  /** A call to one of the Build functions, without the contents of its action. */
  datatype Change =
    | Mute(target: JID)
    | Pin(target: JID)
    | Archive(target: JID, archive: bool)
    | MarkChatAsRead(target: JID)
    | LabelChat(target: JID, labelID: Bytes)
    | LabelMessage(target: JID, labelID: Bytes, messageID: Bytes)
    | LabelEdit(labelID: Bytes)
    | SettingPushName
    | Star(target: JID, sender: JID, messageID: Bytes, fromMe: bool)
    | DeleteChat(target: JID)

  /** The index and version of each mutation; archiving also unpins. */
  function Built(c: Change): (ms: seq<(seq<Bytes>, int)>)
    ensures ms != []
  {
    match c
    case Mute(target) => [([INDEX_MUTE, target.String()], 2)]
    case Pin(target) => [PinMutation(target)]
    case Archive(target, archive) => [([INDEX_ARCHIVE, target.String()], 3)]
        + (if archive then [PinMutation(target)] else [])
    case MarkChatAsRead(target) => [([INDEX_MARK_CHAT_AS_READ, target.String()], 3)]
    case LabelChat(target, labelID) => [([INDEX_LABEL_ASSOCIATION_CHAT, labelID, target.String()], 3)]
    case LabelMessage(target, labelID, messageID) =>
      [([INDEX_LABEL_ASSOCIATION_MESSAGE, labelID, target.String(), messageID, ZERO, ZERO], 3)]
    case LabelEdit(labelID) => [([INDEX_LABEL_EDIT, labelID], 3)]
    case SettingPushName => [([INDEX_SETTING_PUSH_NAME], 1)]
    case Star(target, sender, messageID, fromMe) =>
      [([INDEX_STAR, target.String(), messageID, if fromMe then ONE else ZERO,
         if target.user == sender.user then ZERO else sender.String()], 2)]
    case DeleteChat(target) => [([INDEX_DELETE_CHAT, target.String()], 6)]
  }

  function PinMutation(target: JID): (seq<Bytes>, int) {
    ([INDEX_PIN, target.String()], 5)
  }

  function Infos(c: Change, values: seq<Bytes>): (infos: seq<MutationInfo>)
    requires |values| == |Built(c)|
    ensures |infos| == |values|
  {
    seq(|values|, i requires 0 <= i < |values| => MutationInfo(Built(c)[i].0, Built(c)[i].1, values[i]))
  }

  /** Different indexes of the patch have different MACs. */
  ghost predicate IndexMACsTellApart(env: Env, keys: Keys, infos: seq<MutationInfo>) {
    forall i, j | 0 <= i < j < |infos| && infos[i].index != infos[j].index ::
      env.crypto.hmac256(keys.index, env.crypto.marshalIndex(infos[i].index))
      != env.crypto.hmac256(keys.index, env.crypto.marshalIndex(infos[j].index))
  }

  /** Whatever the client builds, a receiver in the sender's state accepts and decodes to the same changes. */
  lemma BuiltPatchAccepted(env: Env, st: Stored, held: Held, keyId: Bytes, c: Change, values: seq<Bytes>, ivs: seq<IV>)
    requires Inverses(env.crypto) && |held.hash| == LTHash.HASH_SIZE && |ivs| == |values| == |Built(c)|
    requires EncodedPatch(env, st.macs, keyId, held, Infos(c, values), ivs).Ok?
    requires IndexMACsTellApart(env, KeyOf(env, keyId).value, Infos(c, values))
    ensures
      var infos := Infos(c, values);
      var patch := Labelled(EncodedPatch(env, st.macs, keyId, held, infos, ivs).value, held.version);
      var r := ApplyPatch(env, st, held, patch, true);
      && r.Ok?
      && |r.value.mutations| == |infos|
      && forall i | 0 <= i < |infos| :: Carries(r.value.mutations[i], infos[i])
  {
    hide Inverses, SenderDelta, ApplyPatch, EncodedMutation, EncodedMutations, UpdatedHash;
    hide DistinctSoFar, Carries, KeyOf, Infos, Built, IndexMACsTellApart;
    var keys, infos := KeyOf(env, keyId).value, Infos(c, values);
    ListsDiffer(c, values);
    MACsDiffer(env, keys, keyId, infos, ivs);
    EncodedPatchAccepted(env, st, held, keyId, infos, ivs);
  }

  lemma ListsDiffer(c: Change, values: seq<Bytes>)
    requires |values| == |Built(c)|
    ensures forall i, j | 0 <= i < j < |values| :: Infos(c, values)[i].index != Infos(c, values)[j].index
  {
    if |values| == 2 {
      NamesDiffer();
      assert Infos(c, values)[0].index[0] == INDEX_ARCHIVE && Infos(c, values)[1].index[0] == INDEX_PIN;
    }
  }

  lemma MACsDiffer(env: Env, keys: Keys, keyId: Bytes, infos: seq<MutationInfo>, ivs: seq<IV>)
    requires |ivs| == |infos| && IndexMACsTellApart(env, keys, infos)
    requires forall i, j | 0 <= i < j < |infos| :: infos[i].index != infos[j].index
    ensures var ms := EncodedMutations(env, keys, keyId, infos, ivs); DistinctSoFar(ms, |ms|)
  {
    hide EncryptedContent;
    var ms := EncodedMutations(env, keys, keyId, infos, ivs);
    assert forall i | 0 <= i < |ms| ::
      ms[i].index == env.crypto.hmac256(keys.index, env.crypto.marshalIndex(infos[i].index));
  }

  /** The version of an action, by the name its index starts with. */
  function VersionOf(name: Bytes): int {
    if name == Ascii("pin_v1") then 5
    else if name == Ascii("deleteChat") then 6
    else if name == Ascii("setting_pushName") then 1
    else if name == Ascii("mute") || name == Ascii("star") then 2
    else 3
  }

  /** Every mutation carries the version of its action; archiving a chat also unpins it. */
  lemma BuiltVersions(c: Change)
    ensures forall m <- Built(c) :: m.0 != [] && m.1 == VersionOf(m.0[0])
    ensures c.Archive? && c.archive ==>
      Built(c) == [([Ascii("archive"), c.target.String()], 3), ([Ascii("pin_v1"), c.target.String()], 5)]
    ensures !(c.Archive? && c.archive) ==> |Built(c)| == 1
  {
    NamesDiffer();
    NameLengths();
    hide Ascii, JID.String;
  }

  /** Behind its name a star's index holds chat, message, 1 for an own message and 0 for another's, and the sender, for
      whom a 0 stands if it is the chat itself; that of a labelled message ends in two zeros. */
  lemma BuiltMarks(c: Change)
    ensures c.Star? ==>
      Built(c)[0].0[1..] == [c.target.String(), c.messageID, if c.fromMe then [49] else [48],
                             if c.sender.user == c.target.user then [48] else c.sender.String()]
    ensures c.LabelMessage? ==> Built(c)[0].0[1..] == [c.labelID, c.target.String(), c.messageID, [48], [48]]
  {
    hide JID.String;
    assert ZERO == [48] && ONE == [49];
  }

  lemma NameLengths()
    ensures |Ascii("pin_v1")| == 6 && |Ascii("deleteChat")| == 10 && |Ascii("setting_pushName")| == 16
    ensures |Ascii("mute")| == 4 && |Ascii("star")| == 4 && |Ascii("archive")| == 7 && |Ascii("markChatAsRead")| == 14
    ensures Ascii("deleteChat") != Ascii("label_edit")
    ensures |Ascii("label_edit")| == 10 && |Ascii("label_jid")| == 9 && |Ascii("label_message")| == 13
  {
    assert Ascii("deleteChat")[0] != Ascii("label_edit")[0];
  }

  /** The names that indexes start with. */
  const NAMES := [Ascii("mute"), Ascii("pin_v1"), Ascii("archive"), Ascii("deleteChat"), Ascii("star"),
                  Ascii("markChatAsRead"), Ascii("setting_pushName"), Ascii("label_edit"), Ascii("label_jid"),
                  Ascii("label_message")]

  lemma NamesDiffer()
    ensures forall i, j | 0 <= i < j < |NAMES| :: NAMES[i] != NAMES[j]
    ensures INDEX_ARCHIVE != INDEX_PIN
  {
    assert INDEX_MUTE[0] != INDEX_STAR[0] && INDEX_DELETE_CHAT[0] != INDEX_LABEL_EDIT[0];
  }

  function NameAt(c: Change): (n: nat)
    ensures n < |NAMES| && Built(c)[0].0 != [] && Built(c)[0].0[0] == NAMES[n]
  {
    match c
    case Mute(_) => 0
    case Pin(_) => 1
    case Archive(_, _) => 2
    case DeleteChat(_) => 3
    case Star(_, _, _, _) => 4
    case MarkChatAsRead(_) => 5
    case SettingPushName => 6
    case LabelEdit(_) => 7
    case LabelChat(_, _) => 8
    case LabelMessage(_, _, _) => 9
  }

  /** The change as far as its index names it: a star on a chat partner's own message leaves the sender out. */
  function Subject(c: Change): Change {
    match c
    case Archive(target, _) => Archive(target, false)
    case Star(target, sender, messageID, fromMe) =>
      if target.user == sender.user then Star(target, target, messageID, fromMe) else c
    case _ => c
  }

  predicate Named(c: Change) {
    && (!c.LabelEdit? && !c.SettingPushName? ==> Printable(c.target))
    && (c.Star? && c.sender.user != c.target.user ==> Printable(c.sender) && c.sender.String() != ZERO)
  }

  /** No two different changes write the same index. */
  lemma IndexNamesSubject(c: Change, d: Change)
    requires Named(c) && Named(d) && Built(c)[0].0 == Built(d)[0].0
    ensures Subject(c) == Subject(d)
  {
    NamesDiffer();
    assert NameAt(c) == NameAt(d);
    var l, m := Built(c)[0].0, Built(d)[0].0;
    hide NAMES, Printable;
    match c {
      case Mute(_) => assert l[1] == m[1]; StringInjective(c.target, d.target);
      case Pin(_) => assert l[1] == m[1]; StringInjective(c.target, d.target);
      case Archive(_, _) => assert l[1] == m[1]; StringInjective(c.target, d.target);
      case DeleteChat(_) => assert l[1] == m[1]; StringInjective(c.target, d.target);
      case MarkChatAsRead(_) => assert l[1] == m[1]; StringInjective(c.target, d.target);
      case LabelChat(_, _) => assert l[2] == m[2]; StringInjective(c.target, d.target); assert l[1] == m[1];
      case LabelMessage(_, _, _) =>
        assert l[1] == m[1] && l[2] == m[2] && l[3] == m[3];
        StringInjective(c.target, d.target);
      case Star(_, _, _, _) =>
        assert l[1] == m[1];
        StringInjective(c.target, d.target);
        assert l[2] == m[2] && l[3] == m[3] && l[4] == m[4] && ZERO[0] != ONE[0];
        if c.target.user != c.sender.user { StringInjective(c.sender, d.sender); }
      case LabelEdit(_) => assert l[1] == m[1];
      case SettingPushName =>
    }
  }
}
