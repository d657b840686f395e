/** The tables of base/models.py as values: users, topics, classrooms,
    messages and conspects keyed by primary key, the referential integrity
    the database keeps between them, the `on_delete` rules that keep it, the
    models' default orderings and their `__str__` renderings. */
module Models {
  import opened Text

  datatype Option<T> = None | Some(value: T)

  /** Primary keys. */
  type Id = nat

  /** `PositiveSmallIntegerField`: 0 to 32767, so a balance is never negative. */
  type SmallPositive = b: int | 0 <= b <= 32767

  /** Balance every new account starts with. */
  const DefaultBalance: SmallPositive := 300

  /** An account. `password` stands for the stored password hash. */
  datatype User = User(username: string, email: string, name: string, password: string, balance: SmallPositive)

  datatype Topic = Topic(name: string)

  /** `host` and `topic` become `None` when the referenced row is deleted
      (`SET_NULL`); `created`/`updated` are the `auto_now_add`/`auto_now`
      timestamps as abstract integers. */
  datatype Classroom = Classroom(
    host: Option<Id>,
    topic: Option<Id>,
    name: string,
    description: Option<string>,
    students: set<Id>,
    created: int,
    updated: int)

  datatype Message = Message(author: Id, classroom: Id, body: string, created: int, updated: int)

  /** `file` is the stored file's name. */
  datatype Conspect = Conspect(author: Id, classroom: Id, description: Option<string>, file: string, created: int)

  /** The whole store; every primary key handed out so far is below `nextId`. */
  datatype Db = Db(
    users: map<Id, User>,
    topics: map<Id, Topic>,
    classrooms: map<Id, Classroom>,
    messages: map<Id, Message>,
    conspects: map<Id, Conspect>,
    nextId: nat)

  const EmptyDb := Db(map[], map[], map[], map[], map[], 0)

  /** A freshly created account, with the field default for its balance. */
  function NewUser(username: string, email: string, name: string, password: string): (u: User)
    ensures u.balance == DefaultBalance
    ensures u.username == username && u.email == email
  {
    User(username, email, name, password, DefaultBalance)
  }

  // ---------------------------------------------------------------------
  // Integrity of the store

  ghost predicate KeysBelow(db: Db)
  {
    && (forall u :: u in db.users ==> u < db.nextId)
    && (forall t :: t in db.topics ==> t < db.nextId)
    && (forall c :: c in db.classrooms ==> c < db.nextId)
    && (forall m :: m in db.messages ==> m < db.nextId)
    && (forall k :: k in db.conspects ==> k < db.nextId)
  }

  /** Every nullable foreign key of a classroom points at an existing row. */
  predicate ClassroomLinked(users: map<Id, User>, topics: map<Id, Topic>, c: Classroom)
  {
    && (c.host.Some? ==> c.host.value in users)
    && (c.topic.Some? ==> c.topic.value in topics)
    && c.students <= users.Keys
  }

  /** Referential integrity of all foreign keys. */
  ghost predicate Linked(db: Db)
  {
    && (forall c :: c in db.classrooms ==> ClassroomLinked(db.users, db.topics, db.classrooms[c]))
    && (forall m :: m in db.messages ==>
          db.messages[m].author in db.users && db.messages[m].classroom in db.classrooms)
    && (forall k :: k in db.conspects ==>
          db.conspects[k].author in db.users && db.conspects[k].classroom in db.classrooms)
  }

  /** `username` and `email` are unique columns of the user table. */
  ghost predicate UniqueAccounts(users: map<Id, User>)
  {
    forall u, v :: u in users && v in users && u != v ==>
      users[u].username != users[v].username && users[u].email != users[v].email
  }

  ghost predicate Valid(db: Db)
  {
    KeysBelow(db) && Linked(db) && UniqueAccounts(db.users)
  }

  /** Nothing in the store refers to user `u` any more. */
  ghost predicate NoReferenceToUser(db: Db, u: Id)
  {
    && u !in db.users
    && (forall c :: c in db.classrooms ==>
          db.classrooms[c].host != Some(u) && u !in db.classrooms[c].students)
    && (forall m :: m in db.messages ==> db.messages[m].author != u)
    && (forall k :: k in db.conspects ==> db.conspects[k].author != u)
  }

  // ---------------------------------------------------------------------
  // on_delete rules

  /** `classroom.delete()`: messages and conspects of the classroom go with
      it (`CASCADE`). */
  function DeleteClassroom(db: Db, id: Id): (r: Db)
    ensures id !in r.classrooms
    ensures forall m :: m in r.messages ==> r.messages[m].classroom != id
    ensures forall k :: k in r.conspects ==> r.conspects[k].classroom != id
  {
    db.(classrooms := db.classrooms - {id},
        messages := map m | m in db.messages && db.messages[m].classroom != id :: db.messages[m],
        conspects := map k | k in db.conspects && db.conspects[k].classroom != id :: db.conspects[k])
  }

  /** A classroom after user `u` is deleted: a host of `u` becomes `None`
      (`SET_NULL`) and `u` leaves the roster (its many-to-many rows go). */
  function Orphaned(c: Classroom, u: Id): Classroom
  {
    c.(host := if c.host == Some(u) then None else c.host, students := c.students - {u})
  }

  /** `user.delete()`: hosted classrooms are kept with no host, the user's
      messages and conspects are deleted (`CASCADE` on `author`). */
  function DeleteUser(db: Db, u: Id): (r: Db)
    ensures NoReferenceToUser(r, u)
  {
    db.(users := db.users - {u},
        classrooms := map c | c in db.classrooms :: Orphaned(db.classrooms[c], u),
        messages := map m | m in db.messages && db.messages[m].author != u :: db.messages[m],
        conspects := map k | k in db.conspects && db.conspects[k].author != u :: db.conspects[k])
  }

  /** `topic.delete()`: classrooms tagged with it lose their topic (`SET_NULL`). */
  function DeleteTopic(db: Db, t: Id): (r: Db)
    ensures t !in r.topics
    ensures forall c :: c in r.classrooms ==> r.classrooms[c].topic != Some(t)
  {
    db.(topics := db.topics - {t},
        classrooms := map c | c in db.classrooms ::
          var room := db.classrooms[c];
          if room.topic == Some(t) then room.(topic := None) else room)
  }

  /** Nothing refers to a message, so deleting one removes only that row. */
  function DeleteMessage(db: Db, m: Id): (r: Db)
    ensures m !in r.messages
    ensures forall x :: x in db.messages && x != m ==> x in r.messages && r.messages[x] == db.messages[x]
  {
    db.(messages := db.messages - {m})
  }

  /** Nothing refers to a conspect, so deleting one removes only that row. */
  function DeleteConspect(db: Db, k: Id): (r: Db)
    ensures k !in r.conspects
    ensures forall x :: x in db.conspects && x != k ==> x in r.conspects && r.conspects[x] == db.conspects[x]
  {
    db.(conspects := db.conspects - {k})
  }

  /** Deleting a classroom removes exactly the messages and conspects posted
      in it, leaves every other row as it was, and keeps the store linked. */
  lemma DeleteClassroomCascades(db: Db, id: Id)
    requires Valid(db)
    ensures var r := DeleteClassroom(db, id);
      && Valid(r)
      && r.users == db.users && r.topics == db.topics && r.nextId == db.nextId
      && r.classrooms.Keys == db.classrooms.Keys - {id}
      && (forall c :: c in r.classrooms ==> r.classrooms[c] == db.classrooms[c])
      && (forall m :: m in r.messages <==> m in db.messages && db.messages[m].classroom != id)
      && (forall m :: m in r.messages ==> r.messages[m] == db.messages[m])
      && (forall k :: k in r.conspects <==> k in db.conspects && db.conspects[k].classroom != id)
      && (forall k :: k in r.conspects ==> r.conspects[k] == db.conspects[k])
  {
  }

  lemma DeleteUserKeepsLinks(db: Db, u: Id)
    requires Linked(db)
    ensures Linked(DeleteUser(db, u))
  {
    var r := DeleteUser(db, u);
    forall c | c in r.classrooms
      ensures ClassroomLinked(r.users, r.topics, r.classrooms[c])
    {
      assert ClassroomLinked(db.users, db.topics, db.classrooms[c]);
    }
  }

  /** Deleting a user keeps the store linked and leaves no reference to
      the user behind. */
  lemma DeleteUserKeepsValid(db: Db, u: Id)
    requires Valid(db)
    ensures var r := DeleteUser(db, u);
      Valid(r) && NoReferenceToUser(r, u)
  {
    DeleteUserKeepsLinks(db, u);
  }

  /** Deleting a user keeps every classroom, clears the host of the ones the
      user hosted and changes nothing else about them but the roster, and
      deletes exactly the user's messages and conspects; no other user goes
      and each roster loses only `u`. */
  lemma DeleteUserSetsHostNull(db: Db, u: Id)
    ensures var r := DeleteUser(db, u);
      && r.users == db.users - {u}
      && r.topics == db.topics && r.nextId == db.nextId
      && r.classrooms.Keys == db.classrooms.Keys
      && (forall c :: c in db.classrooms ==> r.classrooms[c].students == db.classrooms[c].students - {u})
      && (forall c :: c in db.classrooms && db.classrooms[c].host == Some(u) ==> r.classrooms[c].host == None)
      && (forall c :: c in db.classrooms && db.classrooms[c].host != Some(u) ==>
            r.classrooms[c].host == db.classrooms[c].host)
      && (forall c :: c in db.classrooms ==>
            r.classrooms[c].(host := None, students := {}) == db.classrooms[c].(host := None, students := {}))
      && (forall m :: m in r.messages <==> m in db.messages && db.messages[m].author != u)
      && (forall m :: m in r.messages ==> r.messages[m] == db.messages[m])
      && (forall k :: k in r.conspects <==> k in db.conspects && db.conspects[k].author != u)
      && (forall k :: k in r.conspects ==> r.conspects[k] == db.conspects[k])
  {
  }

  /** Deleting a topic keeps the store valid. */
  lemma DeleteTopicKeepsValid(db: Db, t: Id)
    requires Valid(db)
    ensures Valid(DeleteTopic(db, t))
  {
    var r := DeleteTopic(db, t);
    forall c | c in r.classrooms
      ensures ClassroomLinked(r.users, r.topics, r.classrooms[c])
    {
      assert ClassroomLinked(db.users, db.topics, db.classrooms[c]);
    }
  }

  /** Deleting a topic removes exactly that topic, keeps every classroom,
      sets the topic of the ones tagged with it to `None` and changes
      nothing else. */
  lemma DeleteTopicSetsTopicNull(db: Db, t: Id)
    ensures var r := DeleteTopic(db, t);
      && r.topics == db.topics - {t}
      && r.nextId == db.nextId
      && r.classrooms.Keys == db.classrooms.Keys
      && (forall c :: c in r.classrooms ==> r.classrooms[c].topic != Some(t))
      && (forall c :: c in db.classrooms && db.classrooms[c].topic == Some(t) ==>
            r.classrooms[c] == db.classrooms[c].(topic := None))
      && (forall c :: c in db.classrooms ==>
            r.classrooms[c] == db.classrooms[c].(topic := r.classrooms[c].topic))
      && (forall c :: c in db.classrooms && db.classrooms[c].topic != Some(t) ==>
            r.classrooms[c] == db.classrooms[c])
      && r.messages == db.messages && r.conspects == db.conspects && r.users == db.users
  {
  }

  /** Deleting a message removes only that row and keeps the store valid. */
  lemma DeleteMessageKeepsValid(db: Db, m: Id)
    requires Valid(db)
    ensures var r := DeleteMessage(db, m);
      && Valid(r) && r.messages.Keys == db.messages.Keys - {m} && r.classrooms == db.classrooms
      && r.users == db.users && r.topics == db.topics && r.conspects == db.conspects && r.nextId == db.nextId
  {
  }

  /** Deleting a conspect removes only that row and keeps the store valid. */
  lemma DeleteConspectKeepsValid(db: Db, k: Id)
    requires Valid(db)
    ensures var r := DeleteConspect(db, k);
      && Valid(r) && r.conspects.Keys == db.conspects.Keys - {k} && r.classrooms == db.classrooms
      && r.users == db.users && r.topics == db.topics && r.messages == db.messages && r.nextId == db.nextId
  {
  }

  // ---------------------------------------------------------------------
  // Tables in primary-key order, filtered

  predicate Distinct(s: seq<Id>)
  {
    forall i, j :: 0 <= i < j < |s| ==> s[i] != s[j]
  }

  /** The keys of `m` below `n`, in ascending order: a table scan by primary key. */
  function Rows<T>(m: map<Id, T>, n: nat): (r: seq<Id>)
    ensures forall i :: i in r <==> i in m && i < n
    ensures forall i, j :: 0 <= i < j < |r| ==> r[i] < r[j]
  {
    if n == 0 then []
    else
      var before := Rows(m, n - 1);
      assert forall i :: 0 <= i < |before| ==> before[i] in before;
      before + (if n - 1 in m then [n - 1] else [])
  }

  /** The elements of `s` that satisfy `p`, in the order of `s`. */
  function Filter(s: seq<Id>, p: Id -> bool): (r: seq<Id>)
    ensures forall y :: y in r <==> y in s && p(y)
    ensures Distinct(s) ==> Distinct(r)
  {
    if s == [] then [] else (if p(s[0]) then [s[0]] else []) + Filter(s[1..], p)
  }

  // ---------------------------------------------------------------------
  // Default orderings (`class Meta: ordering`)

  /** The ordering key of a row: `updated`, then `created`, both descending. */
  datatype Stamp = Stamp(updated: int, created: int)

  /** `a` may be listed before `b` under `ordering = ["-updated", "-created"]`. */
  predicate ListedBefore(a: Stamp, b: Stamp)
  {
    a.updated > b.updated || (a.updated == b.updated && a.created >= b.created)
  }

  /** `ListedBefore` is a total preorder, so sorting by it is well defined. */
  lemma ListedBeforeTotalPreorder(a: Stamp, b: Stamp, c: Stamp)
    ensures ListedBefore(a, a)
    ensures ListedBefore(a, b) || ListedBefore(b, a)
    ensures ListedBefore(a, b) && ListedBefore(b, c) ==> ListedBefore(a, c)
  {
  }

  function ClassroomStamps(db: Db): map<Id, Stamp>
  {
    map c | c in db.classrooms :: Stamp(db.classrooms[c].updated, db.classrooms[c].created)
  }

  function MessageStamps(db: Db): map<Id, Stamp>
  {
    map m | m in db.messages :: Stamp(db.messages[m].updated, db.messages[m].created)
  }

  /** Conspects are ordered by `-created` only. */
  function ConspectStamps(db: Db): map<Id, Stamp>
  {
    map k | k in db.conspects :: Stamp(db.conspects[k].created, db.conspects[k].created)
  }

  predicate AllStamped(s: seq<Id>, stamps: map<Id, Stamp>)
  {
    forall i :: 0 <= i < |s| ==> s[i] in stamps
  }

  ghost predicate InOrder(s: seq<Id>, stamps: map<Id, Stamp>)
  {
    AllStamped(s, stamps) &&
    forall i, j :: 0 <= i < j < |s| ==> ListedBefore(stamps[s[i]], stamps[s[j]])
  }

  /** Inserts `x` into an ordered sequence in front of the first row it may
      precede. */
  function Insert(x: Id, s: seq<Id>, stamps: map<Id, Stamp>): (r: seq<Id>)
    requires x in stamps && InOrder(s, stamps)
    ensures InOrder(r, stamps)
    ensures multiset(r) == multiset(s) + multiset{x}
    ensures forall y :: y in r <==> y == x || y in s
  {
    if s == [] then [x]
    else if ListedBefore(stamps[x], stamps[s[0]]) then
      var r := [x] + s;
      assert forall j :: 0 < j < |r| ==> r[j] == s[j - 1] && ListedBefore(stamps[s[0]], stamps[r[j]]);
      r
    else
      var rest := Insert(x, s[1..], stamps);
      assert s == [s[0]] + s[1..];
      var r := [s[0]] + rest;
      assert forall j :: 0 < j < |r| ==> r[j] == rest[j - 1] && r[j] in rest;
      assert forall y :: y in rest ==> ListedBefore(stamps[s[0]], stamps[y]) by {
        forall y | y in rest ensures ListedBefore(stamps[s[0]], stamps[y]) {
          if y != x {
            var j :| 0 <= j < |s[1..]| && s[1..][j] == y;
            assert s[j + 1] == y;
          }
        }
      }
      r
  }

  lemma {:induction false} InsertKeepsDistinct(x: Id, s: seq<Id>, stamps: map<Id, Stamp>)
    requires x in stamps && InOrder(s, stamps)
    requires Distinct(s) && x !in s
    ensures Distinct(Insert(x, s, stamps))
  {
    if s != [] && !ListedBefore(stamps[x], stamps[s[0]]) {
      assert s == [s[0]] + s[1..];
      InsertKeepsDistinct(x, s[1..], stamps);
      var rest := Insert(x, s[1..], stamps);
      var r := Insert(x, s, stamps);
      assert r == [s[0]] + rest;
      assert s[0] !in s[1..];
      assert s[0] !in rest;
      assert forall j :: 0 < j < |r| ==> r[j] == rest[j - 1] && r[j] in rest;
    }
  }

  /** Insertion sort under the model's ordering; rows that tie keep the order
      they came in. */
  function SortByStamp(s: seq<Id>, stamps: map<Id, Stamp>): (r: seq<Id>)
    requires AllStamped(s, stamps)
    ensures InOrder(r, stamps)
    ensures multiset(r) == multiset(s)
    ensures forall y :: y in r <==> y in s
    ensures Distinct(s) ==> Distinct(r)
  {
    if s == [] then []
    else
      assert s == [s[0]] + s[1..];
      var rest := SortByStamp(s[1..], stamps);
      if Distinct(s) then
        InsertKeepsDistinct(s[0], rest, stamps);
        Insert(s[0], rest, stamps)
      else
        Insert(s[0], rest, stamps)
  }

  // ---------------------------------------------------------------------
  // __str__

  /** A conspect with a non-empty description (Python truthiness). */
  predicate Described(c: Conspect)
  {
    c.description.Some? && c.description.value != ""
  }

  /** `[.ext] description`. */
  function Labelled(ext: string, d: string): (r: string)
    ensures |r| == 4 + |ext| + |d| && r[..2] == "[." && r[|r| - |d|..] == d
  {
    var head := "[." + ext + "] ";
    assert (head + d)[..2] == head[..2];
    assert (head + d)[|head|..] == d;
    head + d
  }

  /** `Conspect.__str__`. */
  function ConspectStr(c: Conspect): (r: string)
    ensures Described(c) ==>
      && |r| >= 4 + |c.description.value| && r[..2] == "[."
      && r[|r| - |c.description.value|..] == c.description.value
    ensures !Described(c) ==> |r| == 7 + |c.file| && r[..7] == "images/" && r[7..] == c.file
  {
    if Described(c) then Labelled(AfterLast(c.file, '.'), c.description.value)
    else
      var r := "images/" + c.file;
      assert r[..7] == "images/" && r[7..] == c.file;
      r
  }

  /** A described conspect shows the part of the file name after its last
      dot: for any split of the name into `stem + "." + ext` with no dot in
      `ext`. */
  lemma {:induction false} ConspectStrExtension(c: Conspect, stem: string, ext: string)
    requires Described(c)
    requires c.file == stem + "." + ext && '.' !in ext
    ensures ConspectStr(c) == "[." + ext + "] " + c.description.value
  {
    var r := AfterLast(c.file, '.');
    var n := |c.file|;
    assert c.file[n - |ext| - 1] == '.';
    assert c.file[n - |ext|..] == ext;
  }

  /** A described conspect whose file name has no dot shows the whole name. */
  lemma ConspectStrNoDot(c: Conspect)
    requires Described(c) && '.' !in c.file
    ensures ConspectStr(c) == "[." + c.file + "] " + c.description.value
  {
  }

  /** A conspect without a description shows its image path. */
  lemma ConspectStrUndescribed(c: Conspect)
    requires !Described(c)
    ensures ConspectStr(c) == "images/" + c.file
  {
  }

  function Min(a: int, b: int): int
  {
    if a < b then a else b
  }

  /** `Message.__str__`: the body cut to its first 32 characters, then " ...". */
  function MessageStr(m: Message): (s: string)
    ensures |s| == Min(32, |m.body|) + 4
    ensures s[..|s| - 4] <= m.body
    ensures s[|s| - 4..] == " ..."
  {
    m.body[..Min(32, |m.body|)] + " ..."
  }

  /** A body of at most 32 characters is shown in full. */
  lemma MessageStrShortBody(m: Message)
    requires |m.body| <= 32
    ensures MessageStr(m) == m.body + " ..."
  {
    var s := MessageStr(m);
    assert s == s[..|s| - 4] + s[|s| - 4..];
  }
}
