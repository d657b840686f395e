/** The request handlers of base/views.py that change the store: posting
    to a classroom, creating and updating classrooms (with their topic
    resolved by get-or-create), uploading a conspect, the owner-gated
    deletes, and registration. Each write is first given as a function on
    store snapshots, whose properties are lemmas here; the `Store` class
    then performs it in place on its tables. */
module Handlers {
  import opened Text
  import opened Models
  import opened Http
  import Accounts
  import Queries

  // ---------------------------------------------------------------------
  // Writes as functions on snapshots

  /** The topics named exactly `name`, by primary key. */
  function Named(db: Db, name: string): (r: seq<Id>)
    ensures forall t :: t in r <==> t in db.topics && t < db.nextId && db.topics[t].name == name
    ensures Distinct(r)
  {
    Queries.Select(db.topics, db.nextId, t => t in db.topics && db.topics[t].name == name)
  }

  /** The store with a new topic `name` under the next key. */
  function WithTopic(db: Db, name: string): Db
  {
    db.(topics := db.topics[db.nextId := Topic(name)], nextId := db.nextId + 1)
  }

  /** Adding a topic under the next key keeps the store valid. */
  lemma WithTopicKeepsValid(db: Db, name: string)
    requires Valid(db)
    ensures var r := WithTopic(db, name);
      && Valid(r)
      && db.nextId !in db.topics
      && r.topics.Keys == db.topics.Keys + {db.nextId}
  {
    var r := WithTopic(db, name);
    forall c | c in r.classrooms
      ensures ClassroomLinked(r.users, r.topics, r.classrooms[c])
    {
      assert ClassroomLinked(db.users, db.topics, db.classrooms[c]);
    }
  }

  /** `Topic.objects.get_or_create(name=name)`: the one topic of that name,
      or a new one; `None` when several share the name (the lookup raises). */
  function GetOrCreateTopic(db: Db, name: string): (r: Option<(Id, Db)>)
    ensures r.Some? ==> r.value.0 in r.value.1.topics && r.value.1.topics[r.value.0].name == name
    ensures |Named(db, name)| > 1 <==> r.None?
  {
    var named := Named(db, name);
    if |named| == 1 then
      assert named[0] in named;
      Some((named[0], db))
    else if |named| == 0 then
      Some((db.nextId, WithTopic(db, name)))
    else
      None
  }

  /** The first two entries of a sequence without repetitions differ. */
  lemma DistinctFirstTwo(s: seq<Id>)
    requires Distinct(s)
    ensures |s| > 1 ==> s[0] != s[1] && s[0] in s && s[1] in s
  {
  }

  /** A sequence without repetitions over a one-element set has one element. */
  lemma DistinctSingleton(s: seq<Id>, t: Id)
    requires Distinct(s) && t in s && forall y :: y in s ==> y == t
    ensures s == [t]
  {
    DistinctFirstTwo(s);
    assert s[0] in s;
  }

  /** get-or-create reuses an existing topic without touching the store, or
      adds exactly one topic under a fresh key and changes nothing else. */
  lemma GetOrCreateReusesOrAddsOne(db: Db, name: string)
    requires KeysBelow(db) && GetOrCreateTopic(db, name).Some?
    ensures var (t, db') := GetOrCreateTopic(db, name).value;
      && KeysBelow(db')
      && (t in db.topics ==> db' == db)
      && (t !in db.topics ==>
            && (forall u :: u in db.topics ==> db.topics[u].name != name)
            && db'.topics.Keys == db.topics.Keys + {t}
            && (forall u :: u in db.topics ==> db'.topics[u] == db.topics[u])
            && db' == db.(topics := db'.topics, nextId := db'.nextId))
  {
    var named := Named(db, name);
    if |named| == 1 {
      assert named[0] in named;
    } else {
      assert db.nextId !in db.topics;
      assert WithTopic(db, name).topics.Keys == db.topics.Keys + {db.nextId};
    }
  }

  /** get-or-create keeps the store valid. */
  lemma GetOrCreateKeepsValid(db: Db, name: string)
    requires Valid(db) && GetOrCreateTopic(db, name).Some?
    ensures Valid(GetOrCreateTopic(db, name).value.1)
  {
    if |Named(db, name)| == 0 {
      WithTopicKeepsValid(db, name);
    }
  }

  /** A second get-or-create with the same name finds the topic the first
      one returned and changes nothing: no duplicate is ever created. */
  lemma {:induction false} GetOrCreateIdempotent(db: Db, name: string)
    requires Valid(db) && GetOrCreateTopic(db, name).Some?
    ensures var (t, db') := GetOrCreateTopic(db, name).value;
            GetOrCreateTopic(db', name) == Some((t, db'))
  {
    var named := Named(db, name);
    var (t, db') := GetOrCreateTopic(db, name).value;
    GetOrCreateReusesOrAddsOne(db, name);
    if |named| == 1 {
      assert named[0] in named;
    } else {
      var named' := Named(db', name);
      assert t in named';
      forall y | y in named' ensures y == t {
      }
      DistinctSingleton(named', t);
    }
  }

  /** The store with classroom `pk` replaced by `room`. */
  function WithRoom(db: Db, pk: Id, room: Classroom): Db
  {
    db.(classrooms := db.classrooms[pk := room])
  }

  /** Replacing a classroom by one whose keys point at existing rows keeps
      the store valid. */
  lemma WithRoomKeepsValid(db: Db, pk: Id, room: Classroom)
    requires Valid(db) && pk in db.classrooms && ClassroomLinked(db.users, db.topics, room)
    ensures Valid(WithRoom(db, pk, room))
  {
    var r := WithRoom(db, pk, room);
    forall c | c in r.classrooms
      ensures ClassroomLinked(r.users, r.topics, r.classrooms[c])
    {
      if c != pk {
        assert ClassroomLinked(db.users, db.topics, db.classrooms[c]);
      }
    }
  }

  /** The store with a new message `m` under the next key. */
  function WithMessage(db: Db, m: Message): Db
  {
    db.(messages := db.messages[db.nextId := m], nextId := db.nextId + 1)
  }

  lemma WithMessageKeepsValid(db: Db, m: Message)
    requires Valid(db) && m.author in db.users && m.classroom in db.classrooms
    ensures Valid(WithMessage(db, m)) && db.nextId !in db.messages
  {
    var r := WithMessage(db, m);
    forall c | c in r.classrooms
      ensures ClassroomLinked(r.users, r.topics, r.classrooms[c])
    {
      assert ClassroomLinked(db.users, db.topics, db.classrooms[c]);
    }
  }

  /** `classroom` on POST: a message by `u` is appended and `u` joins the
      roster. */
  function PostMessage(db: Db, u: Id, pk: Id, body: string, now: int): (r: Db)
    requires pk in db.classrooms
    ensures db.nextId in r.messages && r.messages[db.nextId] == Message(u, pk, body, now, now)
    ensures pk in r.classrooms && u in r.classrooms[pk].students
    ensures r.nextId == db.nextId + 1
  {
    var room := db.classrooms[pk];
    WithRoom(WithMessage(db, Message(u, pk, body, now, now)), pk, room.(students := room.students + {u}))
  }

  /** Posting keeps the store valid when the author exists. */
  lemma PostMessageKeepsValid(db: Db, u: Id, pk: Id, body: string, now: int)
    requires Valid(db) && pk in db.classrooms && u in db.users
    ensures Valid(PostMessage(db, u, pk, body, now))
  {
    var room := db.classrooms[pk];
    var db1 := WithMessage(db, Message(u, pk, body, now, now));
    WithMessageKeepsValid(db, Message(u, pk, body, now, now));
    assert ClassroomLinked(db.users, db.topics, room);
    WithRoomKeepsValid(db1, pk, room.(students := room.students + {u}));
  }

  /** Posting appends exactly one message, by `u` in `pk`, and leaves the
      other messages as they were. */
  lemma PostMessageAppends(db: Db, u: Id, pk: Id, body: string, now: int)
    requires KeysBelow(db) && pk in db.classrooms
    ensures var r := PostMessage(db, u, pk, body, now);
      && db.nextId !in db.messages
      && r.messages.Keys == db.messages.Keys + {db.nextId}
      && r.messages[db.nextId] == Message(u, pk, body, now, now)
      && (forall m :: m in db.messages ==> r.messages[m] == db.messages[m])
      && r.users == db.users && r.topics == db.topics && r.conspects == db.conspects
  {
    var r := PostMessage(db, u, pk, body, now);
    assert r.messages == db.messages[db.nextId := Message(u, pk, body, now, now)];
    assert db.nextId !in db.messages;
  }

  /** After posting, `u` is a student of `pk`; nothing else about any
      classroom changes, and a student already on the roster leaves every
      classroom as it was. */
  lemma PostMessageJoins(db: Db, u: Id, pk: Id, body: string, now: int)
    requires pk in db.classrooms
    ensures var r := PostMessage(db, u, pk, body, now);
      && u in r.classrooms[pk].students
      && r.classrooms[pk] == db.classrooms[pk].(students := db.classrooms[pk].students + {u})
      && (u in db.classrooms[pk].students ==> r.classrooms == db.classrooms)
      && (forall c :: c in db.classrooms && c != pk ==> r.classrooms[c] == db.classrooms[c])
      && r.classrooms.Keys == db.classrooms.Keys
  {
    var r := PostMessage(db, u, pk, body, now);
    if u in db.classrooms[pk].students {
      assert db.classrooms[pk].students + {u} == db.classrooms[pk].students;
      assert r.classrooms[pk] == db.classrooms[pk];
    }
  }

  /** `create_classroom` on POST, once the topic `t` is resolved: a new
      classroom hosted by `u`, tagged with `t`, with an empty roster. */
  function NewClassroom(db: Db, u: Id, t: Id, name: string, description: Option<string>, now: int): (r: Db)
    ensures db.nextId in r.classrooms
    ensures r.classrooms[db.nextId].host == Some(u) && r.classrooms[db.nextId].students == {}
    ensures r.nextId == db.nextId + 1
  {
    db.(classrooms := db.classrooms[db.nextId := Classroom(Some(u), Some(t), name, description, {}, now, now)],
        nextId := db.nextId + 1)
  }

  /** Creating a classroom keeps the store valid when host and topic exist. */
  lemma CreateClassroomKeepsValid(db: Db, u: Id, t: Id, name: string, description: Option<string>, now: int)
    requires Valid(db) && u in db.users && t in db.topics
    ensures Valid(NewClassroom(db, u, t, name, description, now))
  {
    var r := NewClassroom(db, u, t, name, description, now);
    forall c | c in r.classrooms
      ensures ClassroomLinked(r.users, r.topics, r.classrooms[c])
    {
      if c != db.nextId {
        assert ClassroomLinked(db.users, db.topics, db.classrooms[c]);
      }
    }
  }

  /** Creating a classroom adds exactly one classroom, under a fresh key,
      hosted by the caller, tagged with `t` and with an empty roster; every
      other row stays. */
  lemma CreateClassroomHostsCaller(db: Db, u: Id, t: Id, name: string, description: Option<string>, now: int)
    requires KeysBelow(db)
    ensures var r := NewClassroom(db, u, t, name, description, now);
      && db.nextId !in db.classrooms
      && r.classrooms.Keys == db.classrooms.Keys + {db.nextId}
      && r.classrooms[db.nextId].host == Some(u)
      && r.classrooms[db.nextId].topic == Some(t)
      && r.classrooms[db.nextId].name == name && r.classrooms[db.nextId].description == description
      && r.classrooms[db.nextId].students == {}
      && (forall c :: c in db.classrooms ==> r.classrooms[c] == db.classrooms[c])
      && r.users == db.users && r.topics == db.topics && r.messages == db.messages && r.conspects == db.conspects
  {
    var room := Classroom(Some(u), Some(t), name, description, {}, now, now);
    assert db.nextId !in db.classrooms;
    assert NewClassroom(db, u, t, name, description, now).classrooms == db.classrooms[db.nextId := room];
  }

  /** `update_classroom` on POST, once the topic `t` is resolved: the room's
      name, topic and description are replaced and `save()` refreshes
      `updated`. */
  function EditClassroom(db: Db, pk: Id, t: Id, name: string, description: Option<string>, now: int): (r: Db)
    requires pk in db.classrooms
    ensures pk in r.classrooms && r.classrooms[pk].topic == Some(t) && r.classrooms[pk].updated == now
    ensures r.classrooms[pk].host == db.classrooms[pk].host
  {
    var room := db.classrooms[pk];
    WithRoom(db, pk, room.(name := name, topic := Some(t), description := description, updated := now))
  }

  /** Updating a classroom keeps the store valid when the topic exists. */
  lemma UpdateClassroomKeepsValid(db: Db, pk: Id, t: Id, name: string, description: Option<string>, now: int)
    requires Valid(db) && pk in db.classrooms && t in db.topics
    ensures Valid(EditClassroom(db, pk, t, name, description, now))
  {
    var room := db.classrooms[pk];
    assert ClassroomLinked(db.users, db.topics, room);
    WithRoomKeepsValid(db, pk, room.(name := name, topic := Some(t), description := description, updated := now));
  }

  /** Updating changes only that classroom, and of it only the name, topic,
      description and update time; host, roster and creation time stay. */
  lemma UpdateClassroomEditsOnlyRoom(db: Db, pk: Id, t: Id, name: string, description: Option<string>, now: int)
    requires pk in db.classrooms
    ensures var r := EditClassroom(db, pk, t, name, description, now);
      && r.classrooms.Keys == db.classrooms.Keys
      && (forall c :: c in db.classrooms && c != pk ==> r.classrooms[c] == db.classrooms[c])
      && r.classrooms[pk].name == name && r.classrooms[pk].description == description
      && r.classrooms[pk].topic == Some(t)
      && r.classrooms[pk].updated == now
      && r.classrooms[pk].host == db.classrooms[pk].host
      && r.classrooms[pk].students == db.classrooms[pk].students
      && r.classrooms[pk].created == db.classrooms[pk].created
      && r.users == db.users && r.topics == db.topics && r.messages == db.messages && r.conspects == db.conspects
      && r.nextId == db.nextId
  {
  }

  /** `create_conspect` after a valid form: the upload by `u` in `pk`. The
      form carries only the file, so the description stays empty. */
  function AddConspect(db: Db, u: Id, pk: Id, file: string, now: int): (r: Db)
    ensures db.nextId in r.conspects && r.conspects[db.nextId].author == u
    ensures ConspectStr(r.conspects[db.nextId]) == "images/" + file
    ensures r.nextId == db.nextId + 1
  {
    db.(conspects := db.conspects[db.nextId := Conspect(u, pk, None, file, now)], nextId := db.nextId + 1)
  }

  /** An upload by an existing user in an existing classroom keeps the store
      valid. */
  lemma CreateConspectKeepsValid(db: Db, u: Id, pk: Id, file: string, now: int)
    requires Valid(db) && u in db.users && pk in db.classrooms
    ensures Valid(AddConspect(db, u, pk, file, now))
  {
    var r := AddConspect(db, u, pk, file, now);
    forall c | c in r.classrooms
      ensures ClassroomLinked(r.users, r.topics, r.classrooms[c])
    {
      assert ClassroomLinked(db.users, db.topics, db.classrooms[c]);
    }
  }

  /** An upload adds exactly one conspect under a fresh key, by `u` in `pk`,
      shown by its image path; every other row stays. */
  lemma CreateConspectAddsOne(db: Db, u: Id, pk: Id, file: string, now: int)
    requires KeysBelow(db)
    ensures var r := AddConspect(db, u, pk, file, now);
      && db.nextId !in db.conspects
      && r.conspects.Keys == db.conspects.Keys + {db.nextId}
      && r.conspects[db.nextId].author == u && r.conspects[db.nextId].classroom == pk
      && ConspectStr(r.conspects[db.nextId]) == "images/" + file
      && (forall k :: k in db.conspects ==> r.conspects[k] == db.conspects[k])
      && r.classrooms == db.classrooms && r.messages == db.messages && r.users == db.users && r.topics == db.topics
  {
    assert db.nextId !in db.conspects;
  }

  // ---------------------------------------------------------------------
  // The store, updated in place

  class Store {
    var users: map<Id, User>
    var topics: map<Id, Topic>
    var classrooms: map<Id, Classroom>
    var messages: map<Id, Message>
    var conspects: map<Id, Conspect>
    var nextId: nat

    /** The tables as one value. */
    function State(): Db
      reads this
    {
      Db(users, topics, classrooms, messages, conspects, nextId)
    }

    ghost predicate Valid()
      reads this
    {
      Models.Valid(State())
    }

    constructor ()
      ensures Valid() && State() == EmptyDb
    {
      users, topics, classrooms, messages, conspects, nextId := map[], map[], map[], map[], map[], 0;
    }

    /** `get_or_create` on the topic table. */
    method ResolveTopic(name: string) returns (t: Option<Id>)
      requires Valid()
      modifies this
      ensures Valid()
      ensures users == old(users) && classrooms == old(classrooms)
      ensures messages == old(messages) && conspects == old(conspects)
      ensures GetOrCreateTopic(old(State()), name).None? ==> t.None? && State() == old(State())
      ensures GetOrCreateTopic(old(State()), name).Some? ==>
                t == Some(GetOrCreateTopic(old(State()), name).value.0) &&
                State() == GetOrCreateTopic(old(State()), name).value.1
    {
      var found := GetOrCreateTopic(State(), name);
      if found.None? {
        return None;
      }
      GetOrCreateKeepsValid(State(), name);
      GetOrCreateReusesOrAddsOne(State(), name);
      var after := found.value.1;
      topics, nextId := after.topics, after.nextId;
      t := Some(found.value.0);
    }

    /** `register_page`. The form's own checks (matching passwords, free
        username and email, a well-formed address) arrive as `formValid`. */
    method Register(verb: HttpMethod, form: Accounts.SignUpForm, formValid: bool) returns (r: Response, session: Option<Id>)
      requires Valid()
      modifies this
      ensures Valid()
      ensures verb != Post || !formValid ==>
                r == Render(LoginRegister) && session.None? && State() == old(State())
      ensures verb == Post && formValid && Accounts.SignUp(old(State()), form).None? ==>
                r == ServerError && session.None? && State() == old(State())
      ensures verb == Post && formValid && Accounts.SignUp(old(State()), form).Some? ==>
                && r == Redirect(Home)
                && session == Some(old(nextId))
                && State() == Accounts.SignUp(old(State()), form).value
    {
      if verb != Post || !formValid {
        return Render(LoginRegister), None;
      }
      var username := Lower(form.username);
      var email := Lower(form.email);
      if Accounts.Taken(users, username, email) {
        return ServerError, None;
      }
      Accounts.SignUpWithKeepsValid(State(), form, email);
      users := users[nextId := NewUser(username, email, form.name, form.password1)];
      session := Some(nextId);
      nextId := nextId + 1;
      r := Redirect(Home);
    }

    /** `classroom`: a GET renders the room; a POST appends the message and
        adds the author to the roster. */
    method VisitClassroom(user: Option<Id>, pk: Id, verb: HttpMethod, body: string, now: int) returns (r: Response)
      requires Valid() && (user.Some? ==> user.value in users)
      modifies this
      ensures Valid()
      ensures pk !in old(classrooms) ==> r == ServerError && State() == old(State())
      ensures pk in old(classrooms) && verb != Post ==> r == Render(ClassroomPage(pk)) && State() == old(State())
      ensures pk in old(classrooms) && verb == Post && user.None? ==> r == ServerError && State() == old(State())
      ensures pk in old(classrooms) && verb == Post && user.Some? ==>
                && r == Redirect(ClassroomView(pk))
                && State() == PostMessage(old(State()), user.value, pk, body, now)
                && user.value in classrooms[pk].students
    {
      if pk !in classrooms {
        return ServerError;
      }
      if verb != Post {
        return Render(ClassroomPage(pk));
      }
      if user.None? {
        return ServerError;
      }
      var u := user.value;
      ghost var before := State();
      PostMessageKeepsValid(before, u, pk, body, now);
      PostMessageJoins(before, u, pk, body, now);
      messages := messages[nextId := Message(u, pk, body, now, now)];
      nextId := nextId + 1;
      var room := classrooms[pk];
      classrooms := classrooms[pk := room.(students := room.students + {u})];
      assert State() == PostMessage(before, u, pk, body, now);
      r := Redirect(ClassroomView(pk));
    }

    /** `create_classroom` (login required): the topic is resolved by name,
        then a classroom hosted by the caller is added. */
    method CreateClassroom(user: Option<Id>, verb: HttpMethod, topicName: string, name: string,
                           description: Option<string>, now: int) returns (r: Response)
      requires Valid() && (user.Some? ==> user.value in users)
      modifies this
      ensures Valid()
      ensures user.None? ==> r == Redirect(Login) && State() == old(State())
      ensures user.Some? && verb != Post ==> r == Render(ClassroomForm) && State() == old(State())
      ensures user.Some? && verb == Post && GetOrCreateTopic(old(State()), topicName).None? ==>
                r == ServerError && State() == old(State())
      ensures user.Some? && verb == Post && GetOrCreateTopic(old(State()), topicName).Some? ==>
                && r == Redirect(Home)
                && var (t, db1) := GetOrCreateTopic(old(State()), topicName).value;
                   State() == NewClassroom(db1, user.value, t, name, description, now)
    {
      if user.None? {
        return Redirect(Login);
      }
      if verb != Post {
        return Render(ClassroomForm);
      }
      var t := ResolveTopic(topicName);
      if t.None? {
        return ServerError;
      }
      CreateClassroomKeepsValid(State(), user.value, t.value, name, description, now);
      var after := NewClassroom(State(), user.value, t.value, name, description, now);
      classrooms, nextId := after.classrooms, after.nextId;
      r := Redirect(Home);
    }

    /** `update_classroom` (login required): only the host may edit; anyone
        else gets a plain refusal message and nothing changes. */
    method UpdateClassroom(user: Option<Id>, pk: Id, verb: HttpMethod, topicName: string, name: string,
                           description: Option<string>, now: int) returns (r: Response)
      requires Valid() && (user.Some? ==> user.value in users)
      modifies this
      ensures Valid()
      ensures user.None? ==> r == Redirect(Login) && State() == old(State())
      ensures user.Some? && pk !in old(classrooms) ==> r == ServerError && State() == old(State())
      ensures user.Some? && pk in old(classrooms) && old(classrooms)[pk].host != user ==>
                r == Text("You are not allowed here!") && State() == old(State())
      ensures user.Some? && pk in old(classrooms) && old(classrooms)[pk].host == user && verb != Post ==>
                r == Render(ClassroomForm) && State() == old(State())
      ensures user.Some? && pk in old(classrooms) && old(classrooms)[pk].host == user && verb == Post &&
              GetOrCreateTopic(old(State()), topicName).None? ==>
                r == ServerError && State() == old(State())
      ensures user.Some? && pk in old(classrooms) && old(classrooms)[pk].host == user && verb == Post &&
              GetOrCreateTopic(old(State()), topicName).Some? ==>
                && r == Redirect(Home)
                && var (t, db1) := GetOrCreateTopic(old(State()), topicName).value;
                   pk in db1.classrooms && State() == EditClassroom(db1, pk, t, name, description, now)
    {
      if user.None? {
        return Redirect(Login);
      }
      if pk !in classrooms {
        return ServerError;
      }
      if user != classrooms[pk].host {
        return Text("You are not allowed here!");
      }
      if verb != Post {
        return Render(ClassroomForm);
      }
      var t := ResolveTopic(topicName);
      if t.None? {
        return ServerError;
      }
      UpdateClassroomKeepsValid(State(), pk, t.value, name, description, now);
      var room := classrooms[pk];
      classrooms := classrooms[pk := room.(name := name, topic := t, description := description, updated := now)];
      r := Redirect(Home);
    }

    /** `create_conspect` (login required). The form's check of the upload
        arrives as `formValid`. */
    method CreateConspect(user: Option<Id>, pk: Id, verb: HttpMethod, formValid: bool, file: string, now: int)
      returns (r: Response)
      requires Valid() && (user.Some? ==> user.value in users)
      modifies this
      ensures Valid()
      ensures user.None? ==> r == Redirect(Login) && State() == old(State())
      ensures user.Some? && (verb != Post || !formValid) ==> r == Render(ConspectForm) && State() == old(State())
      ensures user.Some? && verb == Post && formValid && pk !in old(classrooms) ==>
                r == ServerError && State() == old(State())
      ensures user.Some? && verb == Post && formValid && pk in old(classrooms) ==>
                r == Redirect(ClassroomView(pk)) && State() == AddConspect(old(State()), user.value, pk, file, now)
    {
      if user.None? {
        return Redirect(Login);
      }
      if verb != Post || !formValid {
        return Render(ConspectForm);
      }
      if pk !in classrooms {
        return ServerError;
      }
      ghost var before := State();
      CreateConspectKeepsValid(before, user.value, pk, file, now);
      conspects := conspects[nextId := Conspect(user.value, pk, None, file, now)];
      nextId := nextId + 1;
      assert State() == AddConspect(before, user.value, pk, file, now);
      r := Redirect(ClassroomView(pk));
    }

    /** `delete_classroom` (login required): non-hosts get the 403 image, a
        GET asks for confirmation, a POST deletes the classroom with its
        messages and conspects. */
    method DeleteClassroom(user: Option<Id>, pk: Id, verb: HttpMethod) returns (r: Response)
      requires Valid()
      modifies this
      ensures Valid()
      ensures user.None? ==> r == Redirect(Login) && State() == old(State())
      ensures user.Some? && pk !in old(classrooms) ==> r == ServerError && State() == old(State())
      ensures user.Some? && pk in old(classrooms) && old(classrooms)[pk].host != user ==>
                r == Forbidden && State() == old(State())
      ensures user.Some? && pk in old(classrooms) && old(classrooms)[pk].host == user && verb != Post ==>
                r == Render(DeleteConfirm) && State() == old(State())
      ensures user.Some? && pk in old(classrooms) && old(classrooms)[pk].host == user && verb == Post ==>
                r == Redirect(Home) && State() == Models.DeleteClassroom(old(State()), pk)
    {
      if user.None? {
        return Redirect(Login);
      }
      if pk !in classrooms {
        return ServerError;
      }
      if user != classrooms[pk].host {
        return Forbidden;
      }
      if verb != Post {
        return Render(DeleteConfirm);
      }
      DeleteClassroomCascades(State(), pk);
      var after := Models.DeleteClassroom(State(), pk);
      classrooms, messages, conspects := after.classrooms, after.messages, after.conspects;
      r := Redirect(Home);
    }

    /** `delete_conspect` (login required): only the author may delete; a
        POST returns to the conspect's classroom. */
    method DeleteConspect(user: Option<Id>, pk: Id, verb: HttpMethod) returns (r: Response)
      requires Valid()
      modifies this
      ensures Valid()
      ensures user.None? ==> r == Redirect(Login) && State() == old(State())
      ensures user.Some? && pk !in old(conspects) ==> r == ServerError && State() == old(State())
      ensures user.Some? && pk in old(conspects) && user.value != old(conspects)[pk].author ==>
                r == Forbidden && State() == old(State())
      ensures user.Some? && pk in old(conspects) && user.value == old(conspects)[pk].author && verb != Post ==>
                r == Render(DeleteConfirm) && State() == old(State())
      ensures user.Some? && pk in old(conspects) && user.value == old(conspects)[pk].author && verb == Post ==>
                r == Redirect(ClassroomView(old(conspects)[pk].classroom)) &&
                State() == Models.DeleteConspect(old(State()), pk)
    {
      if user.None? {
        return Redirect(Login);
      }
      if pk !in conspects {
        return ServerError;
      }
      var conspect := conspects[pk];
      if user.value != conspect.author {
        return Forbidden;
      }
      if verb != Post {
        return Render(DeleteConfirm);
      }
      DeleteConspectKeepsValid(State(), pk);
      conspects := conspects - {pk};
      r := Redirect(ClassroomView(conspect.classroom));
    }

    /** `delete_message` (login required): only the author may delete; a
        POST returns home. */
    method DeleteMessage(user: Option<Id>, pk: Id, verb: HttpMethod) returns (r: Response)
      requires Valid()
      modifies this
      ensures Valid()
      ensures user.None? ==> r == Redirect(Login) && State() == old(State())
      ensures user.Some? && pk !in old(messages) ==> r == ServerError && State() == old(State())
      ensures user.Some? && pk in old(messages) && user.value != old(messages)[pk].author ==>
                r == Forbidden && State() == old(State())
      ensures user.Some? && pk in old(messages) && user.value == old(messages)[pk].author && verb != Post ==>
                r == Render(DeleteConfirm) && State() == old(State())
      ensures user.Some? && pk in old(messages) && user.value == old(messages)[pk].author && verb == Post ==>
                r == Redirect(Home) && State() == Models.DeleteMessage(old(State()), pk)
    {
      if user.None? {
        return Redirect(Login);
      }
      if pk !in messages {
        return ServerError;
      }
      if user.value != messages[pk].author {
        return Forbidden;
      }
      if verb != Post {
        return Render(DeleteConfirm);
      }
      DeleteMessageKeepsValid(State(), pk);
      messages := messages - {pk};
      r := Redirect(Home);
    }
  }
}
