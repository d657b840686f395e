# Classroom forum: store, handlers and model rules in Dafny

This project models the core of a Django classroom/forum application. Users
host classrooms tagged with topics. Students post messages in a classroom and
upload "conspects" (lecture notes) to it. The model covers:

- the tables of `base/models.py` as values (`Models.Db`): users, topics,
  classrooms with their student rosters, messages and conspects, keyed by
  primary key;
- the referential integrity the database keeps (`Models.Valid`), and the
  `on_delete` rules (`CASCADE`, `SET_NULL`) that keep it when a row goes;
- the default orderings (`-updated, -created`; `-created` for conspects) and
  the `__str__` renderings of messages and conspects;
- the read-only views of `base/views.py` (`home`, `topics_page`,
  `user_profile`, `activity_page`, the GET of `classroom`) as pure functions
  that filter, sort and slice the tables; `icontains` is both sides
  lower-cased, then substring containment;
- registration and login with their case folding (`Accounts`);
- the handlers that change the store, as methods of the class
  `Handlers.Store`. Its map fields are updated in place. Each method's
  contract ties the new state to a function on snapshots (`PostMessage`,
  `NewClassroom`, `EditClassroom`, `AddConspect`, `Models.DeleteClassroom`,
  ...), and lemmas about those functions state what the handler promises.

Files: `text.dfy` (case folding, substring search, splitting at the last
separator), `models.dfy`, `http.dfy` (the `Response` a handler returns),
`accounts.dfy`, `queries.dfy`, `handlers.dfy`.

Modelling choices:

- An uncaught exception is the response `ServerError`. This covers a failed
  `objects.get`, a unique constraint violated on save,
  `MultipleObjectsReturned` from `get_or_create`, and an anonymous user used
  as a message author.
- `login_required` answers an anonymous user with `Redirect(Login)`.
- The delete handlers answer non-owners with the 403 image; it is the
  response `Forbidden`. `update_classroom` answers a non-host with a plain
  `HttpResponse`; it is `Text("You are not allowed here!")`, as in the code.
- Timestamps are integers passed in as `now`.
- Primary keys come from one counter `nextId` shared by all tables. Only
  their freshness matters to the model.
- A table without a default ordering (`Topic`) is read in primary-key order.
- The outcome of form validation (`is_valid()`) is a boolean parameter.

## Model

| member | source | states |
|---|---|---|
| Text.Lower | base/views.py:57 | the folded string has the same length and every character lower-cased (ASCII) |
| Text.LowerIdempotent | base/views.py:76 | folding an already folded string changes nothing |
| Text.Contains | base/views.py:17-19 | true exactly when the query occurs in the string at some position |
| Text.IContains | base/views.py:17-19 | `icontains`: true exactly when the lower-cased query occurs in the lower-cased text |
| Text.IContainsIgnoresCase | base/views.py:263 | folding the text or the query first does not change whether `icontains` matches |
| Text.IContainsEmpty | base/views.py:14 | the empty query, used when `q` is absent, is contained in every string |
| Text.AfterLast | base/models.py:66 | the result is the longest suffix free of the separator, preceded by the separator when shorter than the input |
| Text.AfterLastSplits | base/models.py:66 | when the separator occurs, prefix + separator + last piece rebuild the input |
| Models.NewUser | base/models.py:11 | a new account keeps the given username and email and starts with balance 300 (the balance type excludes negatives) |
| Models.DeleteClassroomCascades | base/models.py:40-56 | deleting a classroom removes exactly the messages and conspects posted in it, leaves every other row unchanged and keeps the store linked |
| Models.DeleteClassroom | base/models.py:40-56 | after `classroom.delete()` the classroom is gone and no message or conspect refers to it (`CASCADE`) |
| Models.DeleteUser | base/models.py:24-55 | after `user.delete()` no host, roster entry, message or conspect refers to the user |
| Models.DeleteTopic | base/models.py:26 | after `topic.delete()` the topic is gone and no classroom is tagged with it (`SET_NULL`) |
| Models.DeleteMessage | base/views.py:238 | the message is gone and every other message stays as it was |
| Models.DeleteConspect | base/views.py:223 | the conspect is gone and every other conspect stays as it was |
| Models.DeleteUserKeepsValid | base/models.py:24-55 | deleting a user keeps the store linked and leaves no reference to the user: no host, roster entry, message or conspect |
| Models.DeleteUserSetsHostNull | base/models.py:24-55 | deleting a user removes exactly that user; every classroom stays, the host of the ones the user hosted becomes `None`, each roster loses exactly that user and nothing else about a classroom changes; exactly the user's messages and conspects are deleted, and the topics stay |
| Models.DeleteTopicKeepsValid | base/models.py:26 | deleting a topic keeps the store valid |
| Models.DeleteTopicSetsTopicNull | base/models.py:26 | deleting a topic removes exactly that topic; every classroom stays, the topic of those tagged with it becomes `None`, every other classroom and every other table is unchanged |
| Models.DeleteMessageKeepsValid | base/views.py:238 | deleting a message removes only that key from the messages; classrooms, users, topics, conspects and the counter stay, and the store stays valid |
| Models.DeleteConspectKeepsValid | base/views.py:223 | deleting a conspect removes only that key from the conspects; classrooms, users, topics, messages and the counter stay, and the store stays valid |
| Models.ListedBeforeTotalPreorder | base/models.py:34 | the `-updated, -created` order is reflexive, total and transitive |
| Models.Insert | base/models.py:34 | inserting into an ordered listing keeps it ordered and is a permutation of the row plus the listing |
| Models.InsertKeepsDistinct | base/models.py:34 | inserting a row not yet listed keeps the listing free of repetitions |
| Models.SortByStamp | base/models.py:33-34 | the listing is in default order, is a permutation of its input and keeps it free of repetitions |
| Models.ConspectStr | base/models.py:64-68 | a described conspect shows a text opening with `[.` and ending in its description; any other shows `images/` followed by the file name |
| Models.ConspectStrExtension | base/models.py:64-67 | a described conspect shows `[.ext] description`, where `ext` follows the last dot of the file name |
| Models.ConspectStrNoDot | base/models.py:66-67 | a described conspect whose file name has no dot shows the whole name as its extension |
| Models.ConspectStrUndescribed | base/models.py:65-68 | a conspect with no or an empty description shows `images/` + file name |
| Models.MessageStr | base/models.py:50-51 | the text is the first min(32, length) characters of the body followed by " ..." |
| Models.MessageStrShortBody | base/models.py:51 | a body of at most 32 characters is shown in full |
| Accounts.NormalizeEmail | base/views.py:55 | the framework's cleaning keeps the local part as typed and lower-cases the domain after the last `@`; without `@` nothing changes |
| Accounts.SignUpWith | base/views.py:56-58 | the account is refused exactly when its folded username or its email is taken; otherwise exactly one account is added under the next key with the folded username, the given email and password and balance 300, and no other table changes |
| Accounts.SignUpWithKeepsValid | base/views.py:56-58 | a successful registration uses a fresh key, leaves every other account unchanged and keeps the store valid (usernames and emails stay unique) |
| Accounts.SignUpAsWritten | base/views.py:54-58 | registration as written: refused exactly when the folded username or the normalised email is taken; otherwise the new account holds the email as the framework's `normalize_email` leaves it |
| Accounts.SignUp | base/views.py:54-58 | the corrected registration: refused exactly when the folded username or the folded email is taken; otherwise the new account holds the lower-cased email, which folding leaves unchanged |
| Accounts.Authenticate | base/views.py:84 | finds an account exactly when one has this email and credential, and only such an account |
| Accounts.Login | base/views.py:70-92 | a logged-in user is sent home; a GET renders the form; a POST logs in exactly when an account has the lower-cased email and the password |
| Accounts.SignUpThenLogIn | base/views.py:50-87 | with the email folded on registration, logging in with the registered email and password logs into the new account |
| Accounts.NormalizeKeepsCapital | base/views.py:53-55 | for an email with an `@` whose first character is a capital, the framework's normalisation differs from lower-casing the whole email |
| Accounts.SignUpAsWrittenLocksOut | base/views.py:53-87 | as written, an account whose email begins with a capital letter can never be logged into with that email |
| Queries.Newest | base/views.py:23 | a slice `[0:n]` has min(n, count) rows, in default order, each listed before every row left out |
| Queries.Query | base/views.py:14 | a present `q` is used as given; an absent one becomes a query that every text contains |
| Queries.HomeClassrooms | base/views.py:16-20 | a classroom is listed exactly when its topic name, name or description contains the query, ignoring case; the host is not searched |
| Queries.HomeTopics | base/views.py:21 | at most five distinct topics, and all of them when there are fewer than five; which five the database returns is unspecified (no ordering), and the model takes the lowest keys |
| Queries.HomeMessages | base/views.py:23 | at most five distinct messages whose classroom's topic name contains the query, the most recent ones, and all of them when fewer than five match |
| Queries.Home | base/views.py:13-31 | the count equals the number of classrooms listed; the listing is exactly the matching classrooms, each once, in default order, so the count is the number of matching classrooms, and every classroom when `q` is absent; the topics are the five of `HomeTopics` and the messages the five of `HomeMessages` for the same query |
| Queries.TopicsPage | base/views.py:261-265 | exactly the topics whose name contains the query, ignoring case |
| Queries.Hosted | base/views.py:127 | exactly the classrooms the user hosts, in default order |
| Queries.RecentMessagesBy | base/views.py:128 | at most two distinct messages, all by the user, the most recent ones, and all of them when the user wrote fewer than two |
| Queries.UserProfile | base/views.py:125-136 | fails exactly for a missing user; otherwise the hosted classrooms, at most two recent messages and every topic exactly once |
| Queries.Activity | base/views.py:268-271 | every message exactly once, in default order |
| Queries.RoomMessages | base/views.py:103 | exactly the classroom's messages, in default order |
| Queries.RoomConspects | base/views.py:104 | exactly the classroom's conspects, newest first |
| Queries.ClassroomContext | base/views.py:100-122 | fails exactly for a missing classroom; otherwise the room with its messages, conspects and roster |
| Handlers.GetOrCreateTopic | base/views.py:145 | the returned topic carries the requested name; the lookup fails exactly when several topics share that name |
| Handlers.GetOrCreateReusesOrAddsOne | base/views.py:145 | an existing topic is reused and nothing changes; otherwise no topic had the name, exactly one topic is added under a fresh key and every existing topic keeps its value |
| Handlers.GetOrCreateKeepsValid | base/views.py:145 | get-or-create keeps the store valid |
| Handlers.GetOrCreateIdempotent | base/views.py:189 | a second get-or-create with the same name returns the same topic and changes nothing, so no duplicate topic arises |
| Handlers.PostMessage | base/views.py:108-113 | the next key holds the poster's message in the classroom with the body, the poster is on the roster, and the counter advances |
| Handlers.PostMessageKeepsValid | base/views.py:108-113 | posting as an existing user keeps the store valid |
| Handlers.PostMessageAppends | base/views.py:108-112 | posting adds exactly one message, with the poster as author, the classroom and the body, and keeps every other message |
| Handlers.PostMessageJoins | base/views.py:113 | afterwards the poster is a student of the classroom; a member already on the roster leaves every classroom unchanged; no other classroom changes |
| Handlers.NewClassroom | base/views.py:147-152 | the next key holds a classroom hosted by the caller with an empty roster, and the counter advances |
| Handlers.CreateClassroomKeepsValid | base/views.py:147-152 | adding a classroom with an existing host and topic keeps the store valid |
| Handlers.CreateClassroomHostsCaller | base/views.py:147-152 | exactly one classroom is added under a fresh key, hosted by the caller, tagged with the resolved topic, with an empty roster; every other row stays |
| Handlers.EditClassroom | base/views.py:190-193 | the classroom now has the resolved topic and `updated` is the time of the save; its host stays |
| Handlers.UpdateClassroomKeepsValid | base/views.py:190-193 | editing a classroom with an existing topic keeps the store valid |
| Handlers.UpdateClassroomEditsOnlyRoom | base/views.py:190-193 | only that classroom changes, and of it only name, topic, description and update time; host, roster and creation time stay, and so do the other tables and the counter |
| Handlers.AddConspect | base/views.py:164-170 | the next key holds the caller's conspect, shown as `images/` + its stored file name since the form gives no description, and the counter advances |
| Handlers.CreateConspectKeepsValid | base/views.py:164-170 | an upload by an existing user in an existing classroom keeps the store valid |
| Handlers.CreateConspectAddsOne | base/views.py:164-170 | exactly one conspect is added under a fresh key, by the caller in the classroom, shown by its image path; every other row stays |
| Handlers.Store.ResolveTopic | base/views.py:145 | the topic table is updated in place as get-or-create prescribes; the other tables are untouched |
| Handlers.Store.Register | base/views.py:50-66 | an invalid form or a GET renders the form and changes nothing; a rejected account is an error; otherwise the account of the corrected registration (`Accounts.SignUp`, email lower-cased, not as the code stores it) is stored and logged in |
| Handlers.Store.VisitClassroom | base/views.py:100-122 | a missing classroom is an error; a GET changes nothing; an anonymous POST is an error; otherwise the message is posted, the author joins, and the room is shown again |
| Handlers.Store.CreateClassroom | base/views.py:139-156 | anonymous users are sent to login; a GET changes nothing; a POST resolves the topic and adds the caller's classroom |
| Handlers.Store.UpdateClassroom | base/views.py:178-197 | anonymous users are sent to login; a missing room is an error; anyone but the host gets the refusal text and nothing changes; the host's POST edits the room |
| Handlers.Store.CreateConspect | base/views.py:159-175 | anonymous users are sent to login; a GET or an invalid form changes nothing; a missing room is an error; otherwise the conspect is added |
| Handlers.Store.DeleteClassroom | base/views.py:200-212 | anonymous users are sent to login; non-hosts get Forbidden and nothing changes; the host's GET only asks to confirm; the host's POST deletes with the cascade |
| Handlers.Store.DeleteConspect | base/views.py:215-227 | anonymous users are sent to login; non-authors get Forbidden and nothing changes; the author's GET only asks to confirm; the author's POST deletes and returns to the classroom |
| Handlers.Store.DeleteMessage | base/views.py:230-243 | anonymous users are sent to login; non-authors get Forbidden and nothing changes; the author's GET only asks to confirm; the author's POST deletes and returns home |

## Left out

- `static/js/script.js`: browser UI and theme toggling, no server logic.
- `api/`: REST viewsets and serializers whose behaviour lives in a library that is not part of this model.
- `base/forms.py`, `base/urls.py`: field declarations and routing. Form validation enters only as the `formValid` parameter.
- `base/templatetags/base_extras.py`: a call into the external markdown library.
- `read_markdown`, `about_page`, `donate_page`: file reading and rendering only.
- `logout_user` and the session machinery: the session is the `user` parameter of the handlers and the `session` result of login and registration.
- `update_user`: not part of the modelled core; it only saves a validated form.
- Password hashing: `password` stands for the stored hash, and `authenticate` compares it for equality.
- The rendered templates and template context beyond the rows a view selects; messages flashed with `messages.error`.
- File storage of uploads: a conspect's `file` is the name storage gives the upload, already carrying the `uploads/` prefix of `upload_to` (base/models.py:58) and any renaming storage does to keep names unique, so the text shown is `images/uploads/...`; the model does not compute that name and takes it as given.
- Wall-clock time: `auto_now`/`auto_now_add` are the integer `now` handed to each write.
- Unicode case mapping: `Lower` folds ASCII letters only.
- Rows that tie on both timestamps: the database returns them in an unspecified order; the model fixes one order and states only the timestamp order.
- Length limits of `CharField`s, which the database may not enforce, and a missing POST field (a `None` name, topic name or body): every submitted field is a string here.
- Deleting a user or a topic has no handler in `base/views.py`; the REST viewsets of `api/` (left out above) can delete them. `Models.DeleteUser`, `Models.DeleteTopic` and their lemmas state the rules on snapshots only.
- Handlers.Store.Register: stores the email lower-cased, as the corrected registration `Accounts.SignUp` does, where `register_page` (base/views.py:55-58) stores it as the framework's `normalize_email` leaves it (domain lower-cased only); `Accounts.SignUpAsWritten` models the code as written, and the finding below says why the two differ.
- Accounts.Authenticate: the framework's `authenticate` also refuses inactive accounts; `User` has no `is_active` flag here, so every account may log in.
- Pagination and payment or balance transfers: the code has neither.

## Findings

| source | as written | input that shows it | evidently intended | confidence | as-written member | corrected member |
|---|---|---|---|---|---|---|
| base/views.py:53-87 | registration stores the email only as the framework normalises it, so the local part keeps its capitals, while login lower-cases the whole email and then looks it up exactly | register with email `Bob@x.io`, then log in with `Bob@x.io` and the same password: the stored email `Bob@x.io` differs from the looked-up `bob@x.io` | the email is stored case-folded, as login expects, so a new account can log in | medium (depends on a case-sensitive email comparison in the database); not executed | Accounts.SignUpAsWrittenLocksOut | Accounts.SignUpThenLogIn |

`Handlers.Store.Register` uses the corrected registration (`Accounts.SignUp`); `Accounts.SignUpAsWritten` keeps the behaviour as written for the lemma above.
