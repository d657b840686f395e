/** The read-only views of base/views.py (`home`, `topics_page`,
    `user_profile`, `activity_page` and the GET of `classroom`): filters
    and slices over the tables, as the ORM evaluates them. */
module Queries {
  import opened Text
  import opened Models

  /** `request.GET.get('q')`, or `''` when the parameter is absent. */
  function Query(q: Option<string>): (r: string)
    ensures q.Some? ==> r == q.value
    ensures q.None? ==> forall s :: IContains(s, r)
  {
    if q.Some? then q.value
    else
      assert forall s :: IContains(s, "") by {
        forall s ensures IContains(s, "") {
          IContainsEmpty(s);
        }
      }
      ""
  }

  /** `topic__name__icontains=q`: false when the topic is null. */
  predicate TopicMatches(db: Db, t: Option<Id>, q: string)
  {
    t.Some? && t.value in db.topics && IContains(db.topics[t.value].name, q)
  }

  /** The three alternatives of the home search; a null description matches
      nothing. The host's username is not searched. */
  predicate ClassroomMatches(db: Db, c: Classroom, q: string)
  {
    || TopicMatches(db, c.topic, q)
    || IContains(c.name, q)
    || (c.description.Some? && IContains(c.description.value, q))
  }

  /** `classroom__topic__name__icontains=q`. */
  predicate MessageMatches(db: Db, m: Message, q: string)
  {
    m.classroom in db.classrooms && TopicMatches(db, db.classrooms[m.classroom].topic, q)
  }

  /** A prefix of an ordered sequence is ordered, keeps it free of
      repetitions, and every row of it is listed before every row outside
      it. */
  lemma PrefixListedFirst(s: seq<Id>, k: nat, stamps: map<Id, Stamp>)
    requires InOrder(s, stamps) && k <= |s|
    ensures InOrder(s[..k], stamps)
    ensures Distinct(s) ==> Distinct(s[..k])
    ensures forall y :: y in s[..k] ==> y in s
    ensures forall x, y :: x in s[..k] && y in s && y !in s[..k] ==> ListedBefore(stamps[x], stamps[y])
  {
    var p := s[..k];
    assert forall i :: 0 <= i < k ==> p[i] == s[i];
    forall x, y | x in s[..k] && y in s && y !in s[..k]
      ensures ListedBefore(stamps[x], stamps[y])
    {
      var i :| 0 <= i < k && s[..k][i] == x;
      var j :| 0 <= j < |s| && s[j] == y;
    }
  }

  /** `queryset[0:n]` of a queryset in its default order: the `n` rows that
      come first, every one of them listed before every row left out. */
  function Newest(s: seq<Id>, stamps: map<Id, Stamp>, n: nat): (r: seq<Id>)
    requires AllStamped(s, stamps)
    ensures |r| == Min(n, |s|)
    ensures forall y :: y in r ==> y in s
    ensures InOrder(r, stamps)
    ensures forall x, y :: x in r && y in s && y !in r ==> ListedBefore(stamps[x], stamps[y])
    ensures |s| <= n ==> forall y :: y in s ==> y in r
    ensures Distinct(s) ==> Distinct(r)
  {
    var sorted := SortByStamp(s, stamps);
    var k := Min(n, |s|);
    assert |sorted| == |multiset(sorted)| == |multiset(s)| == |s|;
    PrefixListedFirst(sorted, k, stamps);
    var r := sorted[..k];
    assert k == |s| ==> r == sorted;
    r
  }

  /** The rows of `m` whose key satisfies `p`, in primary-key order. */
  function Select<T>(m: map<Id, T>, n: nat, p: Id -> bool): (r: seq<Id>)
    ensures forall y :: y in r <==> y in m && y < n && p(y)
    ensures Distinct(r)
  {
    Filter(Rows(m, n), p)
  }

  /** The rows of `m` whose key satisfies `p`, in the default order given by
      `stamps`. */
  function SelectSorted<T>(m: map<Id, T>, n: nat, p: Id -> bool, stamps: map<Id, Stamp>): (r: seq<Id>)
    requires forall y :: y in m && p(y) ==> y in stamps
    ensures forall y :: y in r <==> y in m && y < n && p(y)
    ensures Distinct(r) && InOrder(r, stamps)
  {
    var found := Select(m, n, p);
    assert forall i :: 0 <= i < |found| ==> found[i] in found;
    SortByStamp(found, stamps)
  }

  /** The first `k` rows of `m` whose key satisfies `p`, in the default
      order given by `stamps`: a `[:k]` slice of an ordered queryset. */
  function SelectNewest<T>(m: map<Id, T>, n: nat, p: Id -> bool, stamps: map<Id, Stamp>, k: nat): (r: seq<Id>)
    requires forall y :: y in m && p(y) ==> y in stamps
    ensures |r| <= k
    ensures forall y :: y in r ==> y in m && y < n && p(y)
    ensures InOrder(r, stamps)
    ensures forall x, y :: x in r && y in m && y < n && p(y) && y !in r ==> ListedBefore(stamps[x], stamps[y])
    ensures |r| < k ==> forall y :: y in m && y < n && p(y) ==> y in r
    ensures Distinct(r)
  {
    var found := Select(m, n, p);
    assert forall i :: 0 <= i < |found| ==> found[i] in found;
    var r := Newest(found, stamps, k);
    assert |r| < k ==> |found| <= k;
    r
  }

  /** The classrooms of the home search, in default order. */
  function HomeClassrooms(db: Db, q: string): (r: seq<Id>)
    requires Valid(db)
    ensures forall c :: c in r <==> c in db.classrooms && ClassroomMatches(db, db.classrooms[c], q)
    ensures Distinct(r)
    ensures InOrder(r, ClassroomStamps(db))
  {
    SelectSorted(db.classrooms, db.nextId, c => c in db.classrooms && ClassroomMatches(db, db.classrooms[c], q),
                 ClassroomStamps(db))
  }

  /** `Topic.objects.all()[0:5]`: topics have no default order, so the table
      is read by primary key; at most five, and the lowest keys first. */
  function HomeTopics(db: Db): (r: seq<Id>)
    requires Valid(db)
    ensures |r| <= 5
    ensures forall t :: t in r ==> t in db.topics
    ensures forall t, u :: t in r && u in db.topics && u !in r ==> t < u
    ensures |r| < 5 ==> forall t :: t in db.topics ==> t in r
    ensures Distinct(r)
  {
    var all := Rows(db.topics, db.nextId);
    var r := all[..Min(5, |all|)];
    assert forall t, u :: t in r && u in db.topics && u !in r ==> t < u by {
      forall t, u | t in r && u in db.topics && u !in r
        ensures t < u
      {
        var i :| 0 <= i < |r| && r[i] == t;
        assert u in all;
        var j :| 0 <= j < |all| && all[j] == u;
      }
    }
    r
  }

  /** At most five messages whose classroom's topic name contains the
      query, the most recent ones. */
  function HomeMessages(db: Db, q: string): (r: seq<Id>)
    requires KeysBelow(db)
    ensures |r| <= 5
    ensures forall m :: m in r ==> m in db.messages && MessageMatches(db, db.messages[m], q)
    ensures InOrder(r, MessageStamps(db))
    ensures forall m, m' :: m in r && m' in db.messages && MessageMatches(db, db.messages[m'], q) && m' !in r ==>
              ListedBefore(MessageStamps(db)[m], MessageStamps(db)[m'])
    ensures |r| < 5 ==> forall m :: m in db.messages && MessageMatches(db, db.messages[m], q) ==> m in r
    ensures Distinct(r)
  {
    SelectNewest(db.messages, db.nextId, m => m in db.messages && MessageMatches(db, db.messages[m], q),
                 MessageStamps(db), 5)
  }

  /** The context `home` renders. */
  datatype HomeContext = HomeContext(
    classrooms: seq<Id>,
    topics: seq<Id>,
    classroomCount: nat,
    classroomMessages: seq<Id>)

  /** `home`: the search results, five topics, the number of results and
      five recent messages of matching topics. */
  function Home(db: Db, q: Option<string>): (h: HomeContext)
    requires Valid(db)
    ensures h.classroomCount == |h.classrooms|
    ensures forall c :: c in h.classrooms <==> c in db.classrooms && ClassroomMatches(db, db.classrooms[c], Query(q))
    ensures q.None? ==> forall c :: c in db.classrooms ==> c in h.classrooms
    ensures InOrder(h.classrooms, ClassroomStamps(db)) && Distinct(h.classrooms)
    ensures h.topics == HomeTopics(db) && h.classroomMessages == HomeMessages(db, Query(q))
  {
    var classrooms := HomeClassrooms(db, Query(q));
    assert q.None? ==> forall c :: c in db.classrooms ==> c in classrooms by {
      if q.None? {
        forall c | c in db.classrooms ensures c in classrooms {
          IContainsEmpty(db.classrooms[c].name);
        }
      }
    }
    HomeContext(classrooms, HomeTopics(db), |classrooms|, HomeMessages(db, Query(q)))
  }

  /** `topics_page`: the topics whose name contains the query, ignoring case. */
  function TopicsPage(db: Db, q: Option<string>): (r: seq<Id>)
    requires Valid(db)
    ensures forall t :: t in r <==> t in db.topics && IContains(db.topics[t].name, Query(q))
    ensures Distinct(r)
  {
    Select(db.topics, db.nextId, t => t in db.topics && IContains(db.topics[t].name, Query(q)))
  }

  /** The classrooms user `pk` hosts (`user.classroom_set`), in default order. */
  function Hosted(db: Db, pk: Id): (r: seq<Id>)
    requires Valid(db)
    ensures forall c :: c in r <==> c in db.classrooms && db.classrooms[c].host == Some(pk)
    ensures Distinct(r) && InOrder(r, ClassroomStamps(db))
  {
    SelectSorted(db.classrooms, db.nextId, c => c in db.classrooms && db.classrooms[c].host == Some(pk),
                 ClassroomStamps(db))
  }

  /** `user.message_set.all()[0:2]`: the user's two most recent messages. */
  function RecentMessagesBy(db: Db, pk: Id): (r: seq<Id>)
    requires KeysBelow(db)
    ensures |r| <= 2
    ensures forall m :: m in r ==> m in db.messages && db.messages[m].author == pk
    ensures InOrder(r, MessageStamps(db))
    ensures forall m, m' :: m in r && m' in db.messages && db.messages[m'].author == pk && m' !in r ==>
              ListedBefore(MessageStamps(db)[m], MessageStamps(db)[m'])
    ensures |r| < 2 ==> forall m :: m in db.messages && db.messages[m].author == pk ==> m in r
    ensures Distinct(r)
  {
    SelectNewest(db.messages, db.nextId, m => m in db.messages && db.messages[m].author == pk,
                 MessageStamps(db), 2)
  }

  /** The context `user_profile` renders. */
  datatype ProfileContext = ProfileContext(user: Id, classrooms: seq<Id>, classroomMessages: seq<Id>, topics: seq<Id>)

  /** `user_profile`: the classrooms the user hosts, the user's two most
      recent messages and every topic; `None` when the user does not exist
      (the lookup raises). */
  function UserProfile(db: Db, pk: Id): (r: Option<ProfileContext>)
    requires Valid(db)
    ensures r.None? <==> pk !in db.users
    ensures r.Some? ==> r.value == ProfileContext(pk, Hosted(db, pk), RecentMessagesBy(db, pk), r.value.topics)
    ensures r.Some? ==> |r.value.classroomMessages| <= 2
    ensures r.Some? ==> forall t :: t in r.value.topics <==> t in db.topics
    ensures r.Some? ==> Distinct(r.value.topics)
  {
    if pk !in db.users then None
    else Some(ProfileContext(pk, Hosted(db, pk), RecentMessagesBy(db, pk), Rows(db.topics, db.nextId)))
  }

  /** `activity_page`: every message, most recent first. */
  function Activity(db: Db): (r: seq<Id>)
    requires Valid(db)
    ensures forall m :: m in r <==> m in db.messages
    ensures Distinct(r) && InOrder(r, MessageStamps(db))
  {
    SelectSorted(db.messages, db.nextId, m => true, MessageStamps(db))
  }

  /** The context the GET of `classroom` renders. */
  datatype RoomContext = RoomContext(classroom: Classroom, messages: seq<Id>, conspects: seq<Id>, students: set<Id>)

  /** `classroom.message_set.all()`, in default order. */
  function RoomMessages(db: Db, pk: Id): (r: seq<Id>)
    requires Valid(db)
    ensures forall m :: m in r <==> m in db.messages && db.messages[m].classroom == pk
    ensures Distinct(r) && InOrder(r, MessageStamps(db))
  {
    SelectSorted(db.messages, db.nextId, m => m in db.messages && db.messages[m].classroom == pk, MessageStamps(db))
  }

  /** `classroom.conspect_set.all()`, newest first. */
  function RoomConspects(db: Db, pk: Id): (r: seq<Id>)
    requires Valid(db)
    ensures forall k :: k in r <==> k in db.conspects && db.conspects[k].classroom == pk
    ensures Distinct(r) && InOrder(r, ConspectStamps(db))
  {
    SelectSorted(db.conspects, db.nextId, k => k in db.conspects && db.conspects[k].classroom == pk,
                 ConspectStamps(db))
  }

  /** `classroom` on GET: the room, its messages and conspects and its
      roster; `None` when the room does not exist (the lookup raises). */
  function ClassroomContext(db: Db, pk: Id): (r: Option<RoomContext>)
    requires Valid(db)
    ensures r.None? <==> pk !in db.classrooms
    ensures r.Some? ==> r.value == RoomContext(db.classrooms[pk], RoomMessages(db, pk), RoomConspects(db, pk),
                                               db.classrooms[pk].students)
  {
    if pk !in db.classrooms then None
    else Some(RoomContext(db.classrooms[pk], RoomMessages(db, pk), RoomConspects(db, pk), db.classrooms[pk].students))
  }
}
