# User management: a Dafny model

This project models the domain logic of a small user-management web service.
It covers two things. The first is the user service (`UserService`), which
keeps a table of user records (id, username, email, display name) in which no
two records share a username and no two share an email. The second is the
HTTP controller (`UserController`), which turns each service outcome into a
status code and a JSON envelope `{success, message?, data?, count?}`.

Files and modules:

- `wrappers.dfy` (`Wrappers`): `Option` for Java's `Optional`, `Result` for a
  call that either returns or throws.
- `decimal.dfy` (`Decimal`): the decimal text of an id, as string
  concatenation with a `Long` writes it. It is proved to round-trip, and
  different ids are proved to have different texts.
- `repository.dfy` (`Repository`): the `User` record, the `UserDetails`
  payload and the table value `Db` (records keyed by id, plus the id counter).
  The persistence port's queries are functions over `Db`: `ExistsByUsername`,
  `ExistsByEmail`, `ExistsById`, `FindById`, `FindByUsername` and `FindAll`.
  `Valid` is the table invariant. The class `UserRepository` is the in-memory
  store; its `Save` and `DeleteById` change the table.
- `service.dfy` (`Service`): the error kinds and their messages. `Create`,
  `Update` and `Delete` each specify one service call as a function from the
  table before to the result and the table after. Lemmas state what those
  calls promise. The class `UserService` performs the calls against a
  `UserRepository`, and its methods are proved to agree with the
  specification functions.
- `controller.dfy` (`Controller`): the six handlers, each a function from a
  service outcome to a `Response`. End-to-end lemmas run the handlers over the
  service specification.

The source signals every service failure as a `RuntimeException` with a
message. The model uses a closed error type instead
(`UsernameExists | EmailExists | NotFound`), and `Message` gives the exact
text the source builds. `MessageInjective` proves that the text determines
the error, so the controller, which forwards only the text, loses nothing.

## Model

| member | source | states |
|---|---|---|
| Decimal.IntToStringInjective | src/main/java/com/example/jibexample/service/UserService.java:66 | different ids give different id texts in "用户不存在，ID: " + id |
| Decimal.NatToStringRoundTrip | src/main/java/com/example/jibexample/service/UserService.java:92 | reading the decimal text of an id back gives the id |
| Repository.FirstWithUsername | src/main/java/com/example/jibexample/service/UserService.java:49-51 | the record found has the name and comes from the list; none is found exactly when no record in the list has the name |
| Repository.ListingMembers | src/main/java/com/example/jibexample/service/UserService.java:57-59 | everything listed is a stored record, and every stored record with an id in range is listed |
| Repository.ListingAscending | src/main/java/com/example/jibexample/service/UserService.java:57-59 | the listing is strictly ascending by id |
| Repository.ListingLength | src/main/java/com/example/jibexample/service/UserService.java:57-59 | the listing has one entry per stored id in range |
| Repository.FindAllContents | src/main/java/com/example/jibexample/service/UserService.java:57-59 | on a valid table, `findAll` returns exactly the stored records, once each (length = table size), in ascending id order |
| Repository.FindAllEmpty | src/main/java/com/example/jibexample/service/UserService.java:57-59 | `findAll` on the empty table is the empty list |
| Repository.FindByUsernameSpec | src/main/java/com/example/jibexample/service/UserService.java:49-51 | `findByUsername` finds a record exactly when one holds the name, and then it is that record |
| Repository.EmptyDbValid | src/main/java/com/example/jibexample/service/UserService.java:18 | the empty table with counter 1 satisfies the uniqueness invariant |
| Repository.UserRepository.Save | src/main/java/com/example/jibexample/service/UserService.java:34 | a new entity gets the counter's id and the counter advances; an entity with an id replaces the record under that id |
| Repository.UserRepository.DeleteById | src/main/java/com/example/jibexample/service/UserService.java:94 | removes the record with that id and nothing else |
| Service.MessageInjective | src/main/java/com/example/jibexample/service/UserService.java:64-78 | two failures with the same message are the same failure |
| Service.Create | src/main/java/com/example/jibexample/service/UserService.java:27-35 | a creation fails exactly when it leaves the table as it was; the id counter never goes back |
| Service.Update | src/main/java/com/example/jibexample/service/UserService.java:64-85 | an update never moves the id counter, and a failed update writes nothing |
| Service.Delete | src/main/java/com/example/jibexample/service/UserService.java:90-95 | a delete never moves the id counter, and a failed delete deletes nothing |
| Service.CreateUsernameTaken | src/main/java/com/example/jibexample/service/UserService.java:28-30 | a stored username is rejected with "用户名已存在: " + username whatever the email, and the table is unchanged |
| Service.CreateEmailTaken | src/main/java/com/example/jibexample/service/UserService.java:28-33 | the email error "邮箱已存在: " + email arises exactly when the username is free and the email is stored; the table is then unchanged |
| Service.CreateAddsOneRecord | src/main/java/com/example/jibexample/service/UserService.java:28-34 | success exactly when both are free; it then adds one record under an id not in use, with the payload's fields, and leaves every other record as it was |
| Service.CreatePreservesValid | src/main/java/com/example/jibexample/service/UserService.java:27-35 | unique usernames and emails stay unique after a creation, whether it succeeds or fails |
| Service.UpdateNotFound | src/main/java/com/example/jibexample/service/UserService.java:65-66 | an update of an absent id fails with "用户不存在，ID: " + id and writes nothing |
| Service.UpdateDuplicates | src/main/java/com/example/jibexample/service/UserService.java:69-77 | on a stored id, the username (email) error arises exactly when a different record holds the new username (email), username first; success exactly when neither is held by another record |
| Service.UpdateSelfExemption | src/main/java/com/example/jibexample/service/UserService.java:69-77 | keeping the record's own username (email) never draws the username (email) error; keeping both always succeeds |
| Service.UpdateReplacesFields | src/main/java/com/example/jibexample/service/UserService.java:80-84 | a successful update keeps the id, sets username, email and name from the details, and leaves every other record as it was |
| Service.UpdatePreservesValid | src/main/java/com/example/jibexample/service/UserService.java:64-85 | unique usernames and emails stay unique after an update, whether it succeeds or fails |
| Service.DeleteRemovesRecord | src/main/java/com/example/jibexample/service/UserService.java:90-95 | an absent id fails with the not-found error and deletes nothing; a present id removes exactly that record, after which it is not found |
| Service.DeleteTwiceFails | src/main/java/com/example/jibexample/service/UserService.java:91-92 | deleting the same id a second time fails with the not-found error |
| Service.DeletePreservesValid | src/main/java/com/example/jibexample/service/UserService.java:90-95 | a delete keeps the table invariant |
| Service.DeletedIdNotReused | src/main/java/com/example/jibexample/service/UserService.java:94 | a record created after a deletion never receives the deleted id |
| Service.UserService.CreateUser | src/main/java/com/example/jibexample/service/UserService.java:27-35 | result and new table are those of `Create` on the old table; the invariant is kept |
| Service.UserService.GetUserById | src/main/java/com/example/jibexample/service/UserService.java:41-43 | the record with that id if stored, none exactly when absent |
| Service.UserService.GetUserByUsername | src/main/java/com/example/jibexample/service/UserService.java:49-51 | present exactly when some record holds the username, and then it is that record |
| Service.UserService.GetAllUsers | src/main/java/com/example/jibexample/service/UserService.java:57-59 | exactly the stored records, one entry per record, ascending by id |
| Service.UserService.UpdateUser | src/main/java/com/example/jibexample/service/UserService.java:64-85 | result and new table are those of `Update` on the old table; the invariant is kept |
| Service.UserService.DeleteUser | src/main/java/com/example/jibexample/service/UserService.java:90-95 | result and new table are those of `Delete` on the old table; the invariant is kept |
| Controller.CreateUser | src/main/java/com/example/jibexample/controller/UserController.java:30-43 | 201 exactly on success, with "用户创建成功" and the created user; otherwise 400, success=false and the service message verbatim; success iff 2xx |
| Controller.GetUserById | src/main/java/com/example/jibexample/controller/UserController.java:49-62 | present: 200 with the user; absent: 404 with "用户不存在，ID: " + id; success iff 2xx |
| Controller.GetUserByUsername | src/main/java/com/example/jibexample/controller/UserController.java:68-81 | present: 200 with the user; absent: 404 with "用户不存在，用户名: " + username; success iff 2xx |
| Controller.GetAllUsers | src/main/java/com/example/jibexample/controller/UserController.java:87-94 | always 200 with success=true, the list as data, and count equal to its length |
| Controller.UpdateUser | src/main/java/com/example/jibexample/controller/UserController.java:100-113 | 200 exactly on success, with "用户更新成功" and the updated user; otherwise 400 with the service message verbatim; success iff 2xx |
| Controller.DeleteUser | src/main/java/com/example/jibexample/controller/UserController.java:119-131 | 200 exactly on success, with "用户删除成功" and no data; otherwise 400 with the service message verbatim; success iff 2xx |
| Controller.RejectionNamesError | src/main/java/com/example/jibexample/controller/UserController.java:38-41 | a 400 response determines the service failure behind it |
| Controller.EmptyTableScenario | src/main/java/com/example/jibexample/controller/UserController.java:30-43 | on an empty table, creating "testuser" answers 201 with id 1; a second "testuser" answers 400 with "用户名已存在: testuser" and writes nothing; id 999 answers 404 to get and 400 to update (naming 999) and delete |
| Controller.DeleteTwiceScenario | src/main/java/com/example/jibexample/controller/UserController.java:119-131 | deleting a stored id answers 200; deleting it again answers 400 with the not-found message |
| Controller.ListEmptyScenario | src/main/java/com/example/jibexample/controller/UserController.java:87-94 | listing an empty table answers 200 with an empty list and count 0 |

## Left out

- Spring wiring, routing, request binding, `ResponseEntity` and JSON serialisation are not modelled. A status is an `int` and an envelope is a datatype. A path id that is not a number, or that overflows `Long`, is rejected by the framework before the controller runs; it is not modelled.
- Transactions and concurrent requests are not modelled. Each service call is one atomic, sequential step, as `@Transactional` makes it at the storage boundary.
- `UserRepository` and the `User` entity are not part of this model. They are replaced by the in-memory table and the `User` datatype. `findAll` returns records in ascending id order, and `findByUsername` returns the first match in that order. The storage engine promises no order; under the invariant there is at most one match.
- Ids are unbounded integers. The 64-bit range of `Long` and the database's id generator are not modelled; ids start at 1 and come from a counter, so they are never reused.
- A creation payload that already carries an id is not modelled. `save` would then merge the payload into an existing row rather than insert it.
- Repository.UserRepository.Save: an entity with an id is stored under that id even when no record has it (a JPA merge would insert under a generated id). The service only saves ids it has just looked up.
- `updateUser` changes the managed entity in place before saving it. The model copies the record value, changes its fields and saves the copy. Aliasing between the entity and the persistence context is not modelled.
- Service.UserService.GetUserByUsername and Service.UserService.GetAllUsers require the table invariant. The database's unique constraints and id generation guarantee it, and every service method keeps it.
- Null fields are not modelled. Every username, email and name is a string.

## Notes

The error and success texts are exactly the ones the code builds, for
example "用户不存在，ID: " + id and "用户不存在，用户名: " + username. An
English paraphrase of them, such as "user not found, id: {id}", is not what
the service sends, and the model does not use one.
