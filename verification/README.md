# PII redaction and user store — a Dafny model

This project models two pieces of a small user-data backend:

- `filter_datum`, the log-line redactor. For each sensitive field name, in
  list order, it rewrites every `field=value` assignment that ends in `;` or at
  the end of the line into `field=` + redaction + separator. The source does
  this with one `re.sub` per field. Here the regular expression
  `(?P<field>F)=(?P<val>.*?)(?:;|$)` is replaced by an explicit left-to-right
  scan over `seq<char>` that follows Python's `re` semantics for this one
  pattern. These are: `.` stops at a newline, `.*?` is lazy, `$` matches at the
  end or just before a final newline, and matches are leftmost and never
  overlap (module `FilteredLogger`, `filtered_logger.dfy`).
- The `DB` user store: `add_user`, `find_user_by` and `update_user`. The ORM
  and the SQL engine become an immutable state (module `UserDb`, `db.dfy`):
  - a schema, which is the set of attribute names of `User`;
  - the session's view of the records, in insertion order;
  - the records as of the last commit.

  The exceptions `NoResultFound`, `InvalidRequestError` and `ValueError`
  become the error kinds of a `Result`, each the exact class raised;
  `Error.IsInvalidRequest` records that `NoResultFound` is a subclass of
  `InvalidRequestError`.

`wrappers.dfy` holds the shared `Option` datatype.

Two behaviours of the code are worth stating up front:

- The value of an assignment always ends at a literal `;` (or the end of the
  line). The separator argument is used only in the replacement.
  `ExampleSeparatorOnlyInReplacement` shows this.
- A rejected `update_user` leaves the pairs set before the bad name in the
  shared session, and the next commit stores them. See Findings.

## Model

| member | source | states |
|---|---|---|
| FilteredLogger.ValueEnd | 0x00-personal_data/filtered_logger.py:17 | The lazy value `.*?` ends at the first position where `;` or `$` matches, and every character before it is neither `;` nor a newline. There is no match when a newline that is not the last character comes first. |
| FilteredLogger.MatchEnd | 0x00-personal_data/filtered_logger.py:17 | The pattern matches at a position exactly when the declarative `IsMatch` holds there: `field=`, a value with no `;` or newline, then a consumed `;` or the end of the line. That match is the only one at that position. |
| FilteredLogger.RedactField | 0x00-personal_data/filtered_logger.py:17-18 | A single field's substitution pass, which is the scan `RedactFrom` started at position 0. It leaves the message unchanged when `field=` does not occur in it. `RedactFrom` has no contract of its own: `NoMatchFrom` and `LeftmostMatch` together fix its result on every input. |
| FilteredLogger.FilterDatum | 0x00-personal_data/filtered_logger.py:8-19 | When no field of the list occurs followed by `=` in the message, the result is the message itself. This includes the empty field list. |
| FilteredLogger.NoMatchFrom | 0x00-personal_data/filtered_logger.py:18 | Text in which the pattern matches nowhere is copied character for character. |
| FilteredLogger.LeftmostMatch | 0x00-personal_data/filtered_logger.py:17-18 | Suppose the first match at or after i spans k..e. Then the text before k is preserved, the match becomes `field=` + redaction + separator (the consumed `;` is replaced, not duplicated), and scanning resumes after the match. |
| FilteredLogger.FilterDatumAppend | 0x00-personal_data/filtered_logger.py:16-19 | Redacting with `fields1 + fields2` equals redacting with `fields1`, then with `fields2` on that output. Fields apply in list order, each over the text the earlier ones rewrote. |
| FilteredLogger.FilterDatumSingle | 0x00-personal_data/filtered_logger.py:16-19 | A one-field list is exactly one substitution pass for that field. |
| FilteredLogger.SingleAssignment | 0x00-personal_data/filtered_logger.py:17-18 | Take a line `before` + `field=value` + (`;` or end of line) + `after`, where the value holds no `;` or newline and the first character of `field=` occurs nowhere in `before` or `after`. It becomes `before` + `field=` + redaction + separator + `after`. |
| FilteredLogger.ExampleMiddleAssignment | 0x00-personal_data/filtered_logger.py:17-18 | `(["password"], "xxx", "name=Bob;password=secret;age=9", ";")` gives `name=Bob;password=xxx;age=9`. |
| FilteredLogger.ExampleTrailingAssignment | 0x00-personal_data/filtered_logger.py:17-18 | `(["password"], "xxx", "name=Bob;password=secret", ";")` gives `name=Bob;password=xxx;`: the separator is appended at the end of the line. |
| FilteredLogger.ExampleLeadingAssignment | 0x00-personal_data/filtered_logger.py:17-18 | `(["ssn"], "***", "ssn=123-45-6789;email=a@b.com;", ";")` gives `ssn=***;email=a@b.com;`. |
| FilteredLogger.ExampleSeparatorOnlyInReplacement | 0x00-personal_data/filtered_logger.py:17-18 | `(["a"], "xxx", "a=1;b=2", ",")` gives `a=xxx,b=2`: `;` terminates the value whatever the separator is. |
| FilteredLogger.ExampleNoLeftBoundary | 0x00-personal_data/filtered_logger.py:17 | Field `name` also rewrites `username=bob;`, giving `username=xxx;`. |
| FilteredLogger.ExampleInnerNewline | 0x00-personal_data/filtered_logger.py:17 | `a=1` followed by a newline that is not last (`"a=1\nb"`) is not a match, so the line is unchanged. |
| FilteredLogger.ExampleFinalNewline | 0x00-personal_data/filtered_logger.py:17 | `$` matches before a final newline: `"a=1\n"` gives `"a=xxx;\n"`. |
| UserDb.MaxId | 0x03-user_authentication_service/db.py:38-40 | The largest integer id stored: no stored id exceeds it and some record carries it; `None` exactly when no record has an integer id. |
| UserDb.NextId | 0x03-user_authentication_service/db.py:38-40 | The id a new row gets is greater than every integer id already stored, so it is fresh. It is 1 when no record has an integer id, and otherwise one more than an id that is stored: the largest id plus one, which may be zero or negative. |
| UserDb.AddUser | 0x03-user_authentication_service/db.py:35-41 | Appends exactly one record, with a fresh id, the given email and hashed password (both default to `''`) and NULL elsewhere. Earlier records are unchanged, the session is committed, the new record is returned, and the schema invariant is kept. |
| UserDb.FirstMatchFrom | 0x03-user_authentication_service/db.py:49 | Gives the first record in insertion order that equals every keyword pair, or reports that none does. |
| UserDb.FindUserBy | 0x03-user_authentication_service/db.py:43-56 | Raises `InvalidRequestError` itself (not its subclass `NoResultFound`) exactly when a keyword is not an attribute. `NoResultFound` exactly when all keywords are attributes and no record matches them all. Otherwise it returns the first matching record. It never raises `ValueError`, so an `except InvalidRequestError` handler catches every failure: it fails exactly when a keyword is unknown or nothing matches. As a pure function it changes nothing. |
| UserDb.FirstUnknown | 0x03-user_authentication_service/db.py:65-66 | Gives the position of the first keyword that `hasattr` rejects; every keyword before it is an attribute. |
| UserDb.SetAttributes | 0x03-user_authentication_service/db.py:65-68 | The attribute loop completes exactly when every name is an attribute, and then sets every pair. Otherwise it sets exactly the pairs before the first unknown name, and every other attribute keeps its value. |
| UserDb.UpdateUser | 0x03-user_authentication_service/db.py:58-69 | `user_id` defaults to `None` and the keywords to none. An unknown id gives `NoResultFound` and an unchanged store. With only known names, the found record gets every pair, other attributes and records are unchanged, and the session is committed. At the first unknown name it raises `ValueError`: the earlier pairs are set in the session and the commit is skipped. |
| UserDb.UpdateFirstNameUnknown | 0x03-user_authentication_service/db.py:58-69 | When the first name passed to `update_user` is not an attribute, the call fails and the store, session and commit are exactly as before, whether or not the id exists. |
| UserDb.UpdateStopsAtUnknown | 0x03-user_authentication_service/db.py:65-69 | Known names that come after the first unknown one have not been applied when `ValueError` is raised. |
| UserDb.AddThenFindByEmail | 0x03-user_authentication_service/db.py:35-52 | After `add_user(e, h)`, `find_user_by(email=e)` succeeds with a record whose email is `e`. |
| UserDb.AddThenFindById | 0x03-user_authentication_service/db.py:35-52 | After `add_user`, `find_user_by(id=<its id>)` returns exactly the record `add_user` returned. |
| UserDb.UpdateThenFind | 0x03-user_authentication_service/db.py:43-69 | After a successful `update_user(id, **kw)`, `find_user_by(**kw)` succeeds. |
| UserDb.PartialUpdateCommittedByLaterAdd | 0x03-user_authentication_service/db.py:35-69 | A concrete run: a rejected `update_user` of an email, followed by `add_user`, commits the rejected email change. |
| UserDb.UpdateUserAtomic | 0x03-user_authentication_service/db.py:58-69 | The corrected update raises the same errors as the source. On success it ends in the same state. On any error it leaves the store, session and commit unchanged. |

## Left out

- `hash_password` (0x00-personal_data/encrypt_password.py): bcrypt with a random salt is foreign cryptography plus randomness. The store takes the hashed password as an opaque string.
- The Flask application (0x03-user_authentication_service/app.py): one HTTP route and the server start-up.
- `DB.__init__` and the memoised `_session`: engine creation, the SQLite file, `drop_all`/`create_all`, session creation. The operations accept any state satisfying `UserDb.Valid`.
- SQLAlchemy flush and transaction mechanics: they are reduced to a session view, which queries see, and a committed snapshot.
- Integrity constraints and commit failures: `user.py` is not part of this model, so no uniqueness or type constraint is known and a commit always succeeds. This includes an `update_user` that sets `id` to a value already in use.
- SQL comparison semantics: these are type affinity and collation. `filter_by` equality is modelled as equality of `Value`s, and `None` matches NULL as `IS NULL` does.
- The order of `first()`: the query has no `ORDER BY`, so the model assumes insertion order.
- `hasattr` on the `User` object: it is modelled as membership in the schema. Python methods, dunder names and other non-column attributes of the class are not modelled.
- UserDb.AddUser: every attribute other than id, email and hashed password is NULL. `user.py` is not part of this model, so a column default declared there is not reflected.
- UserDb.AddUser: returns a value snapshot of the new record. The source returns the live session object, and `find_user_by` hands out that same object. A later `update_user`, or a caller assigning to it followed by any commit, changes what every holder of the object sees. The model has no object identity, so this sharing is not modelled.
- UserDb.NextId: SQLite picks a random unused id once the largest id is the 64-bit maximum. Integers here are unbounded, so that case is not modelled.
- FilteredLogger.FilterDatum: it requires every field name to be free of regular-expression metacharacters. A name such as `a.b` is compiled as a pattern by the source, and the model reads names only as literal text.
- Exception classes: each `Error` kind is the exact class raised. Of SQLAlchemy's hierarchy only the fact that `NoResultFound` subclasses `InvalidRequestError` is modelled (`Error.IsInvalidRequest`); other base classes are not.
- Logging formatters, handlers and logger wiring: the modelled `filtered_logger.py` defines only `filter_datum`.

## Findings

| source | as written | input that shows it | evidently intended | confidence | as-written member | corrected member |
|---|---|---|---|---|---|---|
| 0x03-user_authentication_service/db.py:65-69 | `update_user` raises `ValueError` at an unknown name after the earlier names were set on the session's record, and never rolls back. The session is shared by all calls, so the next commit stores the partial update. | A store holding `{id: 1, email: "a@x"}`. Call `update_user(1, email="b@x", nickname="n")`, which raises `ValueError`. Then `add_user("c@x", "h2")` commits email `b@x` for user 1. | A rejected update leaves no durable trace: the names are validated before anything is set, or the session is rolled back. | medium: depends on the session being reused and not rolled back; not executed | UserDb.PartialUpdateCommittedByLaterAdd | UserDb.UpdateUserAtomic |
