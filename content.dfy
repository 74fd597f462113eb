/** The content document (levels -> topics -> cards) and the two lookups the
    game performs on it: `getLevel` and `getTopic` (game.js). */
module Content {
  import opened Wrappers

  /** The optional language hints shown under a card. */
  datatype Help = Help(starter: seq<string>, structures: seq<string>, lexicon: seq<string>)

  /** A question card; cards have no identity beyond their content. */
  datatype Card = Card(q: string, help: Option<Help>)

  /** `label` in the JSON; `label` is a Dafny keyword, so the field is `name`. */
  datatype Topic = Topic(id: string, name: string, cards: seq<Card>)

  datatype Level = Level(id: string, name: string, topics: seq<Topic>)

  /** The parsed `content.json`; immutable once loaded. */
  datatype Document = Document(title: string, levels: seq<Level>)

  /** The two errors `getLevel` / `getTopic` throw. */
  datatype LookupError = LevelNotFound | TopicNotFound

  /** `find(x => x.id === id)`: the first element whose key is the id.
      A `null` id (None) equals no string, so it finds nothing. */
  function Find<T>(s: seq<T>, key: T -> string, id: Option<string>): Option<T> {
    if s == [] then None
    else if Some(key(s[0])) == id then Some(s[0])
    else Find(s[1..], key, id)
  }

  /** The key the lookups compare: a level's id and a topic's id. */
  function LevelKey(l: Level): string { l.id }
  function TopicKey(t: Topic): string { t.id }

  /** Find returns the first element whose key matches, and finds nothing
      exactly when no element matches. */
  lemma {:induction false} FindFirst<T>(s: seq<T>, key: T -> string, id: Option<string>)
    ensures Find(s, key, id).Some? ==>
      exists k :: 0 <= k < |s| && s[k] == Find(s, key, id).value &&
        Some(key(s[k])) == id && forall j :: 0 <= j < k ==> Some(key(s[j])) != id
    ensures Find(s, key, id).None? <==> forall x :: x in s ==> Some(key(x)) != id
  {
    if s != [] && Some(key(s[0])) != id {
      FindFirst(s[1..], key, id);
      assert s == [s[0]] + s[1..];
      if Find(s, key, id).Some? {
        var k :| 0 <= k < |s[1..]| && s[1..][k] == Find(s, key, id).value &&
          Some(key(s[1..][k])) == id && forall j :: 0 <= j < k ==> Some(key(s[1..][j])) != id;
        assert forall j :: 0 <= j < k + 1 ==> Some(key(s[j])) != id by {
          forall j | 0 <= j < k + 1 ensures Some(key(s[j])) != id {
            if j > 0 {
              assert s[j] == s[1..][j - 1];
            }
          }
        }
      }
    }
  }

  /** `getLevel`: the first level with the id, or LevelNotFound. */
  function GetLevel(doc: Document, levelId: Option<string>): Result<Level, LookupError> {
    match Find(doc.levels, LevelKey, levelId)
    case None => Err(LevelNotFound)
    case Some(l) => Ok(l)
  }

  /** `getTopic`: the first topic with the id inside the level `getLevel`
      finds; LevelNotFound when that fails, TopicNotFound when the level has
      no such topic. */
  function GetTopic(doc: Document, levelId: Option<string>, topicId: Option<string>): Result<Topic, LookupError> {
    match GetLevel(doc, levelId)
    case Err(e) => Err(e)
    case Ok(level) =>
      match Find(level.topics, TopicKey, topicId)
      case None => Err(TopicNotFound)
      case Some(t) => Ok(t)
  }

  /** getLevel succeeds exactly when some level has the id, and then returns
      the first such level. */
  lemma GetLevelSpec(doc: Document, levelId: Option<string>)
    ensures GetLevel(doc, levelId).Ok? ==>
      exists k :: 0 <= k < |doc.levels| && doc.levels[k] == GetLevel(doc, levelId).value &&
        Some(doc.levels[k].id) == levelId && forall j :: 0 <= j < k ==> Some(doc.levels[j].id) != levelId
    ensures GetLevel(doc, levelId) == Err(LevelNotFound) <==> forall l :: l in doc.levels ==> Some(l.id) != levelId
  {
    FindFirst(doc.levels, LevelKey, levelId);
  }

  /** getTopic succeeds exactly when getLevel does and its level has a topic
      with the id, and then returns the first such topic of that level;
      otherwise it reports which of the two lookups failed. */
  lemma GetTopicSpec(doc: Document, levelId: Option<string>, topicId: Option<string>)
    ensures GetTopic(doc, levelId, topicId).Ok? ==>
      GetLevel(doc, levelId).Ok? &&
      exists k :: 0 <= k < |GetLevel(doc, levelId).value.topics| &&
        GetLevel(doc, levelId).value.topics[k] == GetTopic(doc, levelId, topicId).value &&
        Some(GetLevel(doc, levelId).value.topics[k].id) == topicId &&
        forall j :: 0 <= j < k ==> Some(GetLevel(doc, levelId).value.topics[j].id) != topicId
    ensures GetTopic(doc, levelId, topicId) == Err(LevelNotFound) <==> GetLevel(doc, levelId).Err?
    ensures GetTopic(doc, levelId, topicId) == Err(TopicNotFound) <==>
      GetLevel(doc, levelId).Ok? &&
      forall t :: t in GetLevel(doc, levelId).value.topics ==> Some(t.id) != topicId
  {
    if GetLevel(doc, levelId).Ok? {
      FindFirst(GetLevel(doc, levelId).value.topics, TopicKey, topicId);
    }
  }

  /** A topic listed on the topic screen of a level that was found is found
      again by its own id. */
  lemma ListedTopicFound(doc: Document, levelId: Option<string>, k: nat)
    requires GetLevel(doc, levelId).Ok? && k < |GetLevel(doc, levelId).value.topics|
    ensures GetTopic(doc, levelId, Some(GetLevel(doc, levelId).value.topics[k].id)).Ok?
  {
    var topics := GetLevel(doc, levelId).value.topics;
    FindFirst(topics, TopicKey, Some(topics[k].id));
    assert topics[k] in topics && Some(TopicKey(topics[k])) == Some(topics[k].id);
  }
}
