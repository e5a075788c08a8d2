# api-jogador in Dafny

A model of the player ("jogador") REST API. The API stores player records: id, name
(`nome`), e-mail, phone (`telefone`), codename (`codinome`) and group (`grupo`). It lets
clients create, read, update, delete and filter them. One business rule applies: no two
stored players may share a codename.

The model follows the program's layers, one Dafny module per source file:

- `Model` (`Jogador.dfy`): the `Jogador` entity, with each Java `String` as an
  `Option<string>` (null is `None`). Also the uniqueness predicate on codenames and the
  lemmas saying which store updates keep it.
- `Repository` (`JogadorRepository.dfy`): the store the repository interface stands for.
  It is a class with a `map<int, Jogador>` of rows and the next value of the identity
  column. Its methods state what the program assumes of the persistence framework's
  `existsByCodinome`, `findById`, `save`, `delete` and `findAll(example, pageable)`.
- `Dto` (`JogadorDTO.dfy`): the request representation and its five not-empty
  constraints, as a function from a request to the list of fields that break them.
- `Service` (`JogadorServiceImpl.dfy`): the service class. It holds the repository and
  has `Save` (codename check first), `GetById`, `DeleteJogador` and `UpdateJogador`
  (null guards) and `FindJogador`. `FindJogador` uses the ignore-case, ignore-nulls,
  "containing" matcher, written as the predicate `ExampleMatches`.
- `Controller` (`JogadorController.dfy`): the REST handlers. Each answers `Ok(body)`,
  `NotFound` or `BadRequest(errors)`. Bean validation of a request body comes first, and
  the two exception handlers turn errors into error lists.
- `Strings` and `Wrappers`: lower-case folding, substring search, `Option` and `Result`.

What the repository is assumed to do:

- `save` of an entity without an id inserts it under the next identity value.
- `save` of an entity whose id is stored overwrites that row.
- `save` of an entity whose id is not stored inserts a copy under the next identity
  value. This is how a merge of a detached entity behaves.
- `delete` removes the row with the entity's id. It does nothing when the entity has no
  id or the id is not stored.
- `existsByCodinome` compares codenames exactly, so a null codename matches a stored null
  codename.
- `findAll` lists rows in ascending id order.

The service and the controller are imperative classes whose methods change the store.
The validation, the matcher and the mappings between representation and entity are pure
functions.

## Model

| member | source | states |
|---|---|---|
| `Model.StoreFreshCodinomeKeepsUnique` | src/main/java/com/jogadores/model/Jogador.java:24-25 | storing a record whose codename no stored row holds, under a new key or over an existing one, keeps all codenames pairwise distinct |
| `Model.RemoveKeepsUnique` | src/main/java/com/jogadores/model/Jogador.java:24-25 | removing a row never creates two rows with the same codename |
| `Repository.JogadorRepository.constructor` | src/main/java/com/jogadores/model/Jogador.java:17-19 | a new table is empty and its identity column starts at 1 |
| `Repository.JogadorRepository.ExistsByCodinome` | src/main/java/com/jogadores/repository/JogadorRepository.java:7 | true exactly when some stored row has exactly this codename |
| `Repository.JogadorRepository.FindById` | src/main/java/com/jogadores/repository/JogadorRepository.java:6 | returns the row stored under the id, which carries that id, and is empty exactly when the id is not stored |
| `Repository.JogadorRepository.Save` | src/main/java/com/jogadores/repository/JogadorRepository.java:6 | a stored id is overwritten with the entity; otherwise the entity is stored under the old next identity value, which was free, and the counter advances; the returned entity is the stored row |
| `Repository.JogadorRepository.Delete` | src/main/java/com/jogadores/repository/JogadorRepository.java:6 | removes exactly the row under the entity's id and nothing else; no id means no change |
| `Repository.JogadorRepository.MatchingIds` | src/main/java/com/jogadores/repository/JogadorRepository.java:6 | lists, in strictly ascending order, exactly the stored ids in the range whose rows satisfy the matcher |
| `Repository.JogadorRepository.FindAll` | src/main/java/com/jogadores/repository/JogadorRepository.java:6 | every listed item is a stored row that matches, every matching row is listed, ids strictly ascend (no row twice), the total is the number listed and at most the table size, the page request is echoed |
| `Strings.LowerAll` | src/main/java/com/jogadores/service/impl/JogadorServiceImpl.java:60 | folding keeps the length and folds each character on its own |
| `Strings.ContainsIffOccurs` | src/main/java/com/jogadores/service/impl/JogadorServiceImpl.java:62 | the substring search succeeds exactly when the probe occurs at some position of the value (both directions) |
| `Strings.ContainsEmpty` | src/main/java/com/jogadores/service/impl/JogadorServiceImpl.java:62 | the empty probe occurs in every string |
| `Strings.LowerAllIdempotent` | src/main/java/com/jogadores/service/impl/JogadorServiceImpl.java:60 | folding an already folded string changes nothing |
| `Strings.IgnoreCaseIgnoresFolding` | src/main/java/com/jogadores/service/impl/JogadorServiceImpl.java:60 | lower-casing the probe, or the stored value, before the ignore-case test gives the same answer as not doing so |
| `Dto.Violations` | src/main/java/com/jogadores/controller/dto/JogadorDTO.java:18-31 | a field is reported exactly when it is among the fields checked and is null or empty; no more errors than fields checked |
| `Dto.Validate` | src/main/java/com/jogadores/controller/dto/JogadorDTO.java:18-31 | a constrained field is reported exactly when it is null or empty |
| `Dto.ValidateCountsFailingFields` | src/main/java/com/jogadores/controller/dto/JogadorDTO.java:18-31 | the number of errors equals an independent count of the null-or-empty fields among the five |
| `Dto.ViolationsAreDistinct` | src/main/java/com/jogadores/controller/dto/JogadorDTO.java:18-31 | no field is reported twice |
| `Dto.ViolationsIgnoreId` | src/main/java/com/jogadores/controller/dto/JogadorDTO.java:16 | changing the id changes no field's check |
| `Dto.ValidateIgnoresId` | src/main/java/com/jogadores/controller/dto/JogadorDTO.java:16 | the id carries no constraint: validation gives the same errors whatever the id |
| `Dto.AllFieldsMissingGiveFiveErrors` | src/test/java/com/jogadores/controller/JogadorControllerTest.java:85-95 | a request with all five fields missing yields exactly 5 errors |
| `Dto.CompleteRequestIsValid` | src/main/java/com/jogadores/controller/dto/JogadorDTO.java:18-31 | a request with all five fields non-empty yields no error |
| `Dto.IsValidIffAllNotEmpty` | src/main/java/com/jogadores/controller/dto/JogadorDTO.java:18-31 | a request is valid exactly when all five fields are non-null and non-empty |
| `Service.TextMatches` | src/main/java/com/jogadores/service/impl/JogadorServiceImpl.java:60-62 | a null filter string places no constraint; a null stored value matches only a null filter string |
| `Service.ExampleMatches` | src/main/java/com/jogadores/service/impl/JogadorServiceImpl.java:57-62 | a record matches a filter with an id only if it carries that same id |
| `Service.TextMatchesIffOccurs` | src/main/java/com/jogadores/service/impl/JogadorServiceImpl.java:57-62 | a non-null filter string matches exactly the non-null stored values in which it occurs once both are lower-cased |
| `Service.TextMatchesItself` | src/main/java/com/jogadores/service/impl/JogadorServiceImpl.java:57-62 | a filter string matches the stored value it equals |
| `Service.EmptyProbeMatchesNonNull` | src/main/java/com/jogadores/service/impl/JogadorServiceImpl.java:62 | an empty filter string matches every non-null value and no null one |
| `Service.NullFilterMatchesAll` | src/main/java/com/jogadores/service/impl/JogadorServiceImpl.java:61 | null filter properties impose no constraint: the all-null filter matches every record |
| `Service.RecordMatchesItsOwnName` | src/main/java/com/jogadores/service/impl/JogadorServiceImpl.java:57-63 | a record matches the filter made of its own name alone |
| `Service.JogadorServiceImpl.constructor` | src/main/java/com/jogadores/service/impl/JogadorServiceImpl.java:20-22 | the service works on the repository it is given |
| `Service.JogadorServiceImpl.Save` | src/main/java/com/jogadores/service/impl/JogadorServiceImpl.java:25-30 | fails with BusinessException "Codinome já cadastrado" exactly when the codename is stored, and then the store and its identity counter are unchanged; otherwise exactly one row changes, the saved player under its id, keeping the player's five fields: a stored id is overwritten with the counter unchanged, any other player is stored under the old counter value, which was free, and the counter advances by one; unique codenames stay unique on both paths |
| `Service.JogadorServiceImpl.GetById` | src/main/java/com/jogadores/service/impl/JogadorServiceImpl.java:33-35 | returns the stored player, with that id, when present and an empty result otherwise, never an error and with no change to the store |
| `Service.JogadorServiceImpl.DeleteJogador` | src/main/java/com/jogadores/service/impl/JogadorServiceImpl.java:38-44 | throws IllegalArgumentException exactly when the player or its id is null, and then the store is unchanged; otherwise removes exactly the row under that id, present or not |
| `Service.JogadorServiceImpl.UpdateJogador` | src/main/java/com/jogadores/service/impl/JogadorServiceImpl.java:47-53 | throws IllegalArgumentException exactly when the player or its id is null, with the store and counter unchanged; otherwise writes the player at its id if stored, with the counter unchanged, and elsewhere under the old counter value, which was free, advancing the counter by one; no codename check |
| `Service.JogadorServiceImpl.FindJogador` | src/main/java/com/jogadores/service/impl/JogadorServiceImpl.java:56-64 | lists exactly the stored players matching the filter, each once in ascending id order, with their number as the total and the page request echoed |
| `Service.UpdateCanDuplicateCodinome` | src/main/java/com/jogadores/service/impl/JogadorServiceImpl.java:47-53 | update does not preserve codename uniqueness: giving a second player the first one's codename succeeds and leaves two rows with one codename |
| `Controller.ToEntity` | src/main/java/com/jogadores/controller/JogadorController.java:37 | the mapper copies each request property to the entity property of the same name, id included |
| `Controller.ToDTO` | src/main/java/com/jogadores/controller/JogadorController.java:39 | copying an entity into its representation loses nothing: copying back gives the entity |
| `Controller.ToDTOs` | src/main/java/com/jogadores/controller/JogadorController.java:74-77 | the mapped list has one item per entity, in order, each the copy of the entity at the same position |
| `Controller.MappingRoundTrip` | src/main/java/com/jogadores/controller/JogadorController.java:37-39 | the two field-by-field copies are inverse to each other |
| `Controller.JogadorController.constructor` | src/main/java/com/jogadores/controller/JogadorController.java:29-32 | the controller works on the service it is given |
| `Controller.JogadorController.HandleValidationException` | src/main/java/com/jogadores/controller/JogadorController.java:82-87 | a bad request with one field error per reported field, in order |
| `Controller.JogadorController.HandleBusinessException` | src/main/java/com/jogadores/controller/JogadorController.java:89-93 | a bad request with exactly one error carrying the exception's message |
| `Controller.JogadorController.Create` | src/main/java/com/jogadores/controller/JogadorController.java:34-40 | an invalid request gets its field errors and a taken codename gets exactly the one "Codinome já cadastrado" error, both with the store and the identity counter unchanged; otherwise exactly one row changes, the answered player under its id, with the request's five fields: a request whose id is stored overwrites that row and the counter stays, any other request gets the old counter value as its fresh id and the counter advances by one; codename uniqueness is kept |
| `Controller.JogadorController.GetById` | src/main/java/com/jogadores/controller/JogadorController.java:42-47 | NotFound exactly when the id is not stored; otherwise the stored player with that id and its five fields |
| `Controller.JogadorController.DeleteJogador` | src/main/java/com/jogadores/controller/JogadorController.java:49-55 | NotFound exactly when the id is not stored, with no change to the store; otherwise the looked-up player's row, and only it, is removed |
| `Controller.JogadorController.UpdateJogador` | src/main/java/com/jogadores/controller/JogadorController.java:57-68 | an invalid request gets its field errors; then NotFound exactly when the id is not stored; otherwise the answer carries the stored id and exactly the request's five fields; the method may change nothing, so the store is not written |
| `Controller.JogadorController.UpdateJogadorPersisted` | src/main/java/com/jogadores/controller/JogadorController.java:57-68 | the same answers as the handler, the identity counter never moves, and on success the store holds the answered player at that id, so a following GET returns the PUT's answer |
| `Controller.JogadorController.Find` | src/main/java/com/jogadores/controller/JogadorController.java:70-80 | one output item per item of the service's page, each the copy of the player at the same position, with the same total and the request's page parameters |
| `Controller.JogadorController.FindAnswersMatchingPlayers` | src/main/java/com/jogadores/controller/JogadorController.java:70-80 | each answered item is a stored player matching the request's properties, ids strictly ascend (no player twice), every matching stored player appears, and the page is no longer than the table |
| `Controller.Felipe` | src/test/java/com/jogadores/controller/JogadorControllerTest.java:295-303 | the tests' sample request is valid and has no id |
| `Controller.PutIsNotPersisted` | src/main/java/com/jogadores/controller/JogadorController.java:57-68 | after a PUT that changes the e-mail, a GET of the same id still shows the old e-mail |
| `Controller.PutIsPersisted` | src/test/java/com/jogadores/controller/JogadorControllerTest.java:221 | with the corrected PUT, a following GET equals the PUT's answer and shows the new e-mail |
| `Controller.FilterByNameFindsTheOnlyPlayer` | src/test/java/com/jogadores/controller/JogadorControllerTest.java:285-291 | filtering by the name of the only stored player returns that player alone, with a total of 1 |

## Findings

| source | as written | input that shows it | evidently intended | confidence | as-written member | corrected member |
|---|---|---|---|---|---|---|
| src/main/java/com/jogadores/controller/JogadorController.java:57-68 | PUT copies the request's five fields onto the looked-up player and returns it, but never passes it to `service.updateJogador` or any save, so nothing is stored | player 1 stored with e-mail felipe@email.com; PUT /1 with e-mail lipe@email.com answers lipe@email.com, and a following GET /1 still answers felipe@email.com | the updated player is saved through `service.updateJogador`; the controller test stubs that call (src/test/java/com/jogadores/controller/JogadorControllerTest.java:221) | medium; not executed | `Controller.PutIsNotPersisted` | `Controller.JogadorController.UpdateJogadorPersisted` |

## Left out

- The persistence framework is not modelled. The repository's methods state the behaviour the program relies on (see above), and nothing here checks them against the framework.
- The database's own `unique` and `not null` constraints on the codename column are not modelled. Neither is the race between the codename check and the insert under concurrent requests. These are storage-engine and concurrency concerns, so a null codename can be saved in the model.
- Case-insensitive matching folds only the ASCII letters A-Z. Unicode case folding in the database and in the JVM is not modelled.
- `Repository.JogadorRepository.FindAll`: page slicing is not modelled. The content holds every matching row, and the page number and size are only echoed. The source defines no order; the model lists rows by ascending id.
- HTTP status codes (201, 204, 404, 400), routing, JSON and the API documentation setup are left out. Handlers answer `Ok`, `NotFound` or `BadRequest`.
- The `ApiErrors` class is not part of this model. An error list holds the failing field or the business message. Validation messages have no text in the model, and field errors come in declaration order, which the validator does not promise.
- The object mapper is modelled as a field-by-field copy of the six properties.
- `Service.JogadorServiceImpl.Save` takes a player, never null. The controller always passes one, and a null one would end in a null-pointer error before any check.
- `Controller.JogadorController.UpdateJogador`: the source changes the looked-up entity in place through five setters. The model changes a copy. The entity stays attached to the request's persistence context, but nothing flushes it, so the store does not change in either version.
- Ids are unbounded integers. A 64-bit identity column running out is not modelled.
- Exceptions other than the ones the service throws itself, such as storage failures, are not modelled.
