/** The request scope of the GraphQL layer and the resolvers that use it.

    graphql-go hands every resolver the same root value, an untyped map from
    strings to anything, created once per query. The resolvers use it as the
    request scope: `recentlyTopics` stores a user loader under "user-cache"
    and the content-type flag under "topic-content-type"; a topic's `comments`
    field stores the topic's comments, keyed by id, under "comments-<topic id>"
    and registers their authors with the loader; a comment's quote and every
    `user` field read these entries back. Here the root is a map from strings
    to a closed set of values, `ScopeValue`. */
module Graph {
  import opened Wrappers
  import opened Strings
  import opened LazyQueries

  datatype User = User(id: Key, nickname: string, avatar: string)

  datatype Comment = Comment(
    id: Key,
    userId: Key,
    entityId: Key,
    quoteId: Key,
    contentType: string,
    content: string)

  datatype Topic = Topic(id: Key, userId: Key, title: string, content: string, likeCount: int)

  /** Keys of the root map. */
  const CtxCommentsType: string := "comments"
  const CtxTopicType: string := "topic-content-type"
  const UserCache: string := "user-cache"

  /** What the resolvers store in the root map. */
  datatype ScopeValue =
    | Loader(loader: LazyQuery<User>)
    | Comments(comments: map<Key, Comment>)
    | Flag(contentType: int)

  /** `fmt.Sprintf("%s-%d", kind, id)`: the key of a per-parent entry. */
  function SharedKey(kind: string, id: Key): string
  {
    kind + "-" + Decimal(id as int)
  }

  /** A key is the kind, a '-', and the parent's id in decimal, which reads
      back as the id. */
  lemma SharedKeyShape(kind: string, id: Key)
    ensures var key := SharedKey(kind, id);
      && |key| > |kind| + 1 && key[..|kind| + 1] == kind + "-"
      && (key[|kind| + 1] == '-' <==> id < 0)
      && (id >= 0 ==> AllDigits(key[|kind| + 1..]) && DecimalValue(key[|kind| + 1..]) == id as int)
      && (id < 0 ==> AllDigits(key[|kind| + 2..]) && DecimalValue(key[|kind| + 2..]) == -(id as int))
  {
    var key := SharedKey(kind, id);
    assert key[|kind| + 1..] == Decimal(id as int);
    if id < 0 {
      assert key[|kind| + 2..] == Decimal(id as int)[1..];
    }
  }

  /** Entries of different parents never share a key. */
  lemma SharedKeyInjective(kind: string, a: Key, b: Key)
    requires SharedKey(kind, a) == SharedKey(kind, b)
    ensures a == b
  {
    var n := |kind| + 1;
    assert SharedKey(kind, a)[n..] == Decimal(a as int);
    assert SharedKey(kind, b)[n..] == Decimal(b as int);
    DecimalInjective(a as int, b as int);
  }

  /** A comment snapshot never lands on the loader or on the content-type flag. */
  lemma CommentsKeyIsNotReserved(id: Key)
    ensures SharedKey(CtxCommentsType, id) != UserCache
    ensures SharedKey(CtxCommentsType, id) != CtxTopicType
  {
    assert SharedKey(CtxCommentsType, id)[0] == 'c';
  }

  /** `getSharedData(kind, id, p)`: the entry stored for parent `id`, if any. */
  function GetSharedData(root: map<string, ScopeValue>, kind: string, id: Key): (r: Option<ScopeValue>)
    ensures r.Some? <==> SharedKey(kind, id) in root
    ensures r.Some? ==> r.value == root[SharedKey(kind, id)]
  {
    var key := SharedKey(kind, id);
    if key in root then Some(root[key]) else None
  }

  /** The flag `chooseContentType` reads: `cast.ToInt` of the stored value, 0 when
      nothing or something other than a number is stored. */
  function ContentTypeFlag(root: map<string, ScopeValue>): (flag: int)
    ensures CtxTopicType in root && root[CtxTopicType].Flag? ==> flag == root[CtxTopicType].contentType
    ensures !(CtxTopicType in root && root[CtxTopicType].Flag?) ==> flag == 0
  {
    if CtxTopicType in root && root[CtxTopicType].Flag? then root[CtxTopicType].contentType else 0
  }

  /** `chooseContentType`: content is rendered from Markdown when the flag is 1
      (HTML) and returned as stored otherwise, including when no flag was set. */
  function ChooseContentType(root: map<string, ScopeValue>, content: string, markdownToHtml: string -> string): (r: string)
    ensures ContentTypeFlag(root) == 1 ==> r == markdownToHtml(content)
    ensures ContentTypeFlag(root) != 1 ==> r == content
    ensures CtxTopicType !in root ==> r == content
  {
    match ContentTypeFlag(root)
    case 1 => markdownToHtml(content)
    case _ => content
  }

  /** The `comments` field of a comment: the quoted comment, looked up in the
      snapshot of the comment's topic; nothing when the comment quotes nothing,
      when no snapshot was stored, or when the snapshot lacks the quoted id. */
  function QuotedComment(root: map<string, ScopeValue>, c: Comment): (r: Option<Comment>)
    ensures c.quoteId == 0 ==> r == None
    ensures r.Some? <==>
      && c.quoteId != 0
      && SharedKey(CtxCommentsType, c.entityId) in root
      && root[SharedKey(CtxCommentsType, c.entityId)].Comments?
      && c.quoteId in root[SharedKey(CtxCommentsType, c.entityId)].comments
    ensures r.Some? ==> r.value == root[SharedKey(CtxCommentsType, c.entityId)].comments[c.quoteId]
  {
    if c.quoteId == 0 then None
    else
      match GetSharedData(root, CtxCommentsType, c.entityId)
      case Some(Comments(cMap)) => if c.quoteId in cMap then Some(cMap[c.quoteId]) else None
      case _ => None
  }

  /** The snapshot `ToMap` builds from a topic's comments: id to comment, a
      later comment with the same id replacing an earlier one. */
  function CommentsMapOf(comments: seq<Comment>): (m: map<Key, Comment>)
    ensures forall i :: 0 <= i < |comments| ==> comments[i].id in m
    ensures forall id :: id in m ==> m[id].id == id && m[id] in comments
  {
    if comments == [] then map[]
    else
      var last := comments[|comments| - 1];
      CommentsMapOf(comments[..|comments| - 1])[last.id := last]
  }

  /** No two comments share an id (ids are primary keys). */
  predicate UniqueIds(comments: seq<Comment>)
  {
    forall i, j :: 0 <= i < j < |comments| ==> comments[i].id != comments[j].id
  }

  /** With distinct ids the snapshot maps each comment's id to that comment. */
  lemma {:induction false} CommentsMapOfUnique(comments: seq<Comment>, i: nat)
    requires UniqueIds(comments) && i < |comments|
    ensures CommentsMapOf(comments)[comments[i].id] == comments[i]
  {
    if i < |comments| - 1 {
      var init := comments[..|comments| - 1];
      assert UniqueIds(init);
      CommentsMapOfUnique(init, i);
      assert comments[|comments| - 1].id != comments[i].id;
    }
  }

  /** The authors the topic's `comments` field registers: one per comment, in order. */
  function CommentAuthors(comments: seq<Comment>): (r: seq<Key>)
    ensures |r| == |comments| && forall i :: 0 <= i < |comments| ==> r[i] == comments[i].userId
  {
    seq(|comments|, i requires 0 <= i < |comments| => comments[i].userId)
  }

  /** The authors `recentlyTopics` registers: one per topic, in order. */
  function TopicAuthors(topics: seq<Topic>): (r: seq<Key>)
    ensures |r| == |topics| && forall i :: 0 <= i < |topics| ==> r[i] == topics[i].userId
  {
    seq(|topics|, i requires 0 <= i < |topics| => topics[i].userId)
  }

  /** The snapshot written for topic `t` answers quotes of `t`'s comments from
      `t`'s comments: the quoted comment is found exactly when one of them has
      the quoted id, and it is that one. */
  lemma QuoteFromSnapshot(root: map<string, ScopeValue>, t: Key, comments: seq<Comment>, c: Comment)
    requires UniqueIds(comments)
    requires c.entityId == t && c.quoteId != 0
    ensures var r := QuotedComment(root[SharedKey(CtxCommentsType, t) := Comments(CommentsMapOf(comments))], c);
      && (r.Some? <==> exists i :: 0 <= i < |comments| && comments[i].id == c.quoteId)
      && (forall i :: 0 <= i < |comments| && comments[i].id == c.quoteId ==> r == Some(comments[i]))
  {
    var m := CommentsMapOf(comments);
    var root' := root[SharedKey(CtxCommentsType, t) := Comments(m)];
    assert GetSharedData(root', CtxCommentsType, t) == Some(Comments(m));
    assert QuotedComment(root', c) == (if c.quoteId in m then Some(m[c.quoteId]) else None);
    forall i | 0 <= i < |comments| && comments[i].id == c.quoteId
      ensures m[c.quoteId] == comments[i]
    {
      CommentsMapOfUnique(comments, i);
    }
    if c.quoteId in m {
      var x := m[c.quoteId];
      var i :| 0 <= i < |comments| && comments[i] == x;
      assert comments[i].id == c.quoteId;
    }
  }

  /** The snapshot written for one topic does not change what quotes of
      another topic's comments resolve to. */
  lemma SnapshotsAreIsolated(root: map<string, ScopeValue>, t: Key, v: ScopeValue, c: Comment)
    requires c.entityId != t
    ensures QuotedComment(root[SharedKey(CtxCommentsType, t) := v], c) == QuotedComment(root, c)
  {
    if SharedKey(CtxCommentsType, t) == SharedKey(CtxCommentsType, c.entityId) {
      SharedKeyInjective(CtxCommentsType, t, c.entityId);
    }
  }

  /** The batch function of the user loader: it returns only requested users,
      and every requested user the table has, as the table holds them. */
  function UserBatch(users: map<Key, User>): (query: seq<Key> -> map<Key, User>)
    ensures forall ids: seq<Key>, k :: k in query(ids) <==> k in ids && k in users
    ensures forall ids: seq<Key>, k :: k in query(ids) ==> query(ids)[k] == users[k]
  {
    (ids: seq<Key>) => map k | k in users && k in ids :: users[k]
  }

  /** `recentlyTopics`: pages start at 1; a page below 1 means the first page. */
  function RecentPage(page: int): (p: int)
    ensures p >= 1
    ensures page >= 1 ==> p == page
    ensures page < 1 ==> p == 1
  {
    if page <= 0 then 1 else page
  }

  /** `topics`: twenty topics a page, or only the latest one when `onlyLatest` is given and true. */
  function TopicsPageSize(onlyLatest: Option<bool>): (n: int)
    ensures n == 1 || n == 20
    ensures n == 1 <==> onlyLatest == Some(true)
  {
    if onlyLatest.Some? && onlyLatest.value then 1 else 20
  }

  /** The root value of one query execution. */
  class RequestScope {
    var root: map<string, ScopeValue>

    ghost function Loaders(): set<LazyQuery<User>>
      reads this
    {
      set k | k in root && root[k].Loader? :: root[k].loader
    }

    /** The loader stored under `key`, as a frame. */
    ghost function LoaderAt(key: string): set<object>
      reads this
    {
      if key in root && root[key].Loader? then {root[key].loader} else {}
    }

    /** Whatever is under "user-cache" is a loader (the resolvers assert so
        without checking), and every stored loader keeps its invariant. */
    ghost predicate Valid()
      reads this, Loaders()
    {
      && (UserCache in root ==> root[UserCache].Loader?)
      && forall k :: k in root && root[k].Loader? ==> root[k].loader.Valid()
    }

    /** A fresh, empty root value. */
    constructor ()
      ensures Valid() && root == map[]
    {
      root := map[];
    }

    /** `queryDataFromCache(p, key, id)`: asks the loader under `key` for `id`;
        nothing when no loader is stored there. */
    method QueryDataFromCache(key: string, id: Key) returns (data: Option<User>)
      requires Valid()
      requires key in root ==> root[key].Loader?
      modifies LoaderAt(key)
      ensures Valid() && root == old(root)
      ensures key !in root ==> data == None
      ensures key in root ==>
        && root[key].loader.State() == Flushed(old(root[key].loader.State()), [id], root[key].loader.query)
        && data == (if id in root[key].loader.cache then Some(root[key].loader.cache[id]) else None)
    {
      data := None;
      if key in root {
        var cache := root[key].loader;
        var dataInCache := cache.Get([id]);
        LookupSingleton(cache.cache, id);
        if |dataInCache| > 0 {
          data := Some(dataInCache[0]);
        }
      }
    }

    /** `setKeysToCache(p, key, ids...)`: registers `ids` with the loader under
        `key`; does nothing, and creates no loader, when none is stored there. */
    method SetKeysToCache(key: string, ids: seq<Key>)
      requires Valid()
      requires key in root ==> root[key].Loader?
      modifies LoaderAt(key)
      ensures Valid() && root == old(root)
      ensures key in root ==>
        root[key].loader.State() == Registered(old(root[key].loader.State()), ids)
    {
      if key in root {
        var cache := root[key].loader;
        cache.Set(ids);
      }
    }

    /** The `user` field of a topic or a comment: nil whenever no resolver of
        the request has stored a user loader in the scope; otherwise the
        loader's answer for the id. */
    method ResolveUser(userId: Key) returns (user: Option<User>)
      requires Valid()
      modifies LoaderAt(UserCache)
      ensures Valid() && root == old(root)
      ensures UserCache !in root ==> user == None
      ensures UserCache in root ==>
        && root[UserCache].loader.State() == Flushed(old(root[UserCache].loader.State()), [userId], root[UserCache].loader.query)
        && user == (if userId in root[UserCache].loader.cache then Some(root[UserCache].loader.cache[userId]) else None)
    {
      user := QueryDataFromCache(UserCache, userId);
    }

    /** The `comments` field of a topic, given the topic's comments: stores the
        id-to-comment snapshot under "comments-<topic id>" and registers every
        comment's author with the user loader. No comments: nil, and nothing stored. */
    method TopicComments(topic: Topic, comments: seq<Comment>) returns (r: Option<seq<Comment>>)
      requires Valid()
      modifies this, LoaderAt(UserCache)
      ensures Valid()
      ensures comments == [] ==> r == None && root == old(root)
      ensures comments == [] && UserCache in root ==>
        root[UserCache].loader.State() == old(root[UserCache].loader.State())
      ensures comments != [] ==>
        && r == Some(comments)
        && root == old(root)[SharedKey(CtxCommentsType, topic.id) := Comments(CommentsMapOf(comments))]
      ensures comments != [] && UserCache in root ==>
        root[UserCache].loader.State() == Registered(old(root[UserCache].loader.State()), CommentAuthors(comments))
      ensures (UserCache in root) == (UserCache in old(root))
    {
      if |comments| == 0 {
        return None;
      }
      var commentsMap := CommentsMapOf(comments);
      var users := CommentAuthors(comments);
      var key := SharedKey(CtxCommentsType, topic.id);
      CommentsKeyIsNotReserved(topic.id);
      root := root[key := Comments(commentsMap)];
      SetKeysToCache(UserCache, users);
      r := Some(comments);
    }

    /** `recentlyTopics`: fetches a page of ten topics, creates a new user loader
        over the user table, registers the topics' authors with it and stores it
        under "user-cache", and stores the requested content type. */
    method RecentlyTopics(page: int, contentType: int, findTopics: (int, int) -> seq<Topic>, users: map<Key, User>)
      returns (topics: seq<Topic>)
      requires Valid()
      modifies this
      ensures Valid()
      ensures topics == findTopics(RecentPage(page), 10)
      ensures UserCache in root && fresh(root[UserCache].loader)
      ensures root == old(root)[UserCache := root[UserCache]][CtxTopicType := Flag(contentType)]
      ensures root[UserCache].loader.query == UserBatch(users)
      ensures root[UserCache].loader.State() == Registered(Empty(), TopicAuthors(topics))
      ensures ContentTypeFlag(root) == contentType
    {
      var pageNum := 10;
      var p := page;
      if p <= 0 {
        p := 1;
      }
      topics := findTopics(p, pageNum);
      var userCache := new LazyQuery(UserBatch(users));
      var userIds := TopicAuthors(topics);
      userCache.Set(userIds);
      assert CtxTopicType[0] != UserCache[0];
      root := root[UserCache := Loader(userCache)][CtxTopicType := Flag(contentType)];
    }
  }
}
