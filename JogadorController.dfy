/** The REST controller, reduced to what each handler answers: a body, "not found", or
    "bad request" with a list of errors. Routing, status codes and JSON are left out. */
module Controller {
  import opened Wrappers
  import opened Model
  import opened Dto
  import opened Repository
  import opened Service

  /** One entry of the error list of a rejected request: a field that broke its constraint,
      or the message of a business exception. */
  datatype ApiError = FieldError(field: Field) | Message(message: string)

  /** What a handler answers. */
  datatype Response<+T> = Ok(body: T) | NotFound | BadRequest(errors: seq<ApiError>)

  /** Copy of a request into an entity: each property goes to the property of the same name,
      id included. */
  function ToEntity(dto: JogadorDTO): (j: Jogador)
    ensures j.id == dto.id && j.nome == dto.nome && j.email == dto.email
    ensures j.telefone == dto.telefone && j.codinome == dto.codinome && j.grupo == dto.grupo
  {
    Jogador(dto.id, dto.nome, dto.email, dto.telefone, dto.codinome, dto.grupo)
  }

  /** Field-by-field copy of an entity into its representation; it loses nothing. */
  function ToDTO(j: Jogador): (dto: JogadorDTO)
    ensures ToEntity(dto) == j
  {
    JogadorDTO(j.id, j.nome, j.email, j.telefone, j.codinome, j.grupo)
  }

  /** Item-by-item copy of a list of entities. */
  function ToDTOs(js: seq<Jogador>): (dtos: seq<JogadorDTO>)
    ensures |dtos| == |js|
    ensures forall i :: 0 <= i < |js| ==> dtos[i] == ToDTO(js[i]) && ToEntity(dtos[i]) == js[i]
  {
    if js == [] then [] else [ToDTO(js[0])] + ToDTOs(js[1..])
  }

  /** The two copies are inverse to each other. */
  lemma MappingRoundTrip(dto: JogadorDTO, j: Jogador)
    ensures ToDTO(ToEntity(dto)) == dto && ToEntity(ToDTO(j)) == j
  {
  }

  class JogadorController {
    const service: JogadorServiceImpl

    ghost predicate Valid()
      reads service.repository
    {
      service.Valid()
    }

    constructor (service: JogadorServiceImpl)
      requires service.Valid()
      ensures this.service == service && Valid()
    {
      this.service := service;
    }

    /** The handler of a request that failed validation: one error per reported field. */
    function HandleValidationException<T>(violations: seq<Field>): (resp: Response<T>)
      ensures resp.BadRequest? && |resp.errors| == |violations|
      ensures forall i :: 0 <= i < |violations| ==> resp.errors[i] == FieldError(violations[i])
    {
      BadRequest(seq(|violations|, i requires 0 <= i < |violations| => FieldError(violations[i])))
    }

    /** The handler of a business exception: exactly one error, carrying its message. */
    function HandleBusinessException<T>(ex: ServiceError): (resp: Response<T>)
      requires ex.BusinessException?
      ensures resp.BadRequest? && |resp.errors| == 1 && resp.errors[0] == Message(ex.message)
    {
      BadRequest([Message(ex.message)])
    }

    /** POST: a request that fails validation is answered with its field errors; otherwise the
        player is handed to the service's save, and a refused codename becomes a bad request
        with the service's message. */
    method Create(dto: JogadorDTO) returns (resp: Response<JogadorDTO>)
      requires Valid()
      modifies service.repository
      ensures Valid()
      ensures !IsValid(dto) ==>
                resp == HandleValidationException(Validate(dto)) &&
                service.repository.records == old(service.repository.records)
      ensures IsValid(dto) && old(CodinomeTaken(service.repository.records, dto.codinome)) ==>
                resp == BadRequest([Message(CodinomeJaCadastrado)]) &&
                service.repository.records == old(service.repository.records)
      ensures IsValid(dto) && !old(CodinomeTaken(service.repository.records, dto.codinome)) ==>
                resp.Ok? && resp.body.id.Some? && resp.body.id.value in service.repository.records &&
                service.repository.records[resp.body.id.value] == ToEntity(resp.body) &&
                resp.body.(id := dto.id) == dto
      ensures !resp.Ok? ==> service.repository.nextId == old(service.repository.nextId)
      ensures resp.Ok? ==>
                resp.body.id.Some? &&
                service.repository.records ==
                  old(service.repository.records)[resp.body.id.value := ToEntity(resp.body)]
      ensures resp.Ok? && dto.id.Some? && dto.id.value in old(service.repository.records) ==>
                resp.body == dto && service.repository.nextId == old(service.repository.nextId)
      ensures resp.Ok? && !(dto.id.Some? && dto.id.value in old(service.repository.records)) ==>
                resp.body == dto.(id := Some(old(service.repository.nextId))) &&
                old(service.repository.nextId) !in old(service.repository.records) &&
                service.repository.nextId == old(service.repository.nextId) + 1
      ensures UniqueCodinomes(old(service.repository.records)) ==> UniqueCodinomes(service.repository.records)
    {
      var violations := Validate(dto);
      if violations != [] {
        return HandleValidationException(violations);
      }
      var saved := service.Save(ToEntity(dto));
      match saved
      case Success(entity) =>
        resp := Ok(ToDTO(entity));
      case Failure(ex) =>
        resp := HandleBusinessException(ex);
    }

    /** GET by id: the stored player, or "not found". */
    function GetById(id: int): (resp: Response<JogadorDTO>)
      reads service.repository
      requires Valid()
      ensures resp.Ok? || resp.NotFound?
      ensures resp.NotFound? <==> id !in service.repository.records
      ensures resp.Ok? ==> resp.body.id == Some(id) && ToEntity(resp.body) == service.repository.records[id]
    {
      match service.GetById(id)
      case Some(jogador) => Ok(ToDTO(jogador))
      case None => NotFound
    }

    /** DELETE: "not found" without touching the store when the id is not stored; otherwise
        the looked-up player is handed to the service's delete. */
    method DeleteJogador(id: int) returns (resp: Response<()>)
      requires Valid()
      modifies service.repository
      ensures Valid()
      ensures resp.Ok? || resp.NotFound?
      ensures resp.NotFound? <==> id !in old(service.repository.records)
      ensures resp.NotFound? ==> service.repository.records == old(service.repository.records)
      ensures resp.Ok? ==> service.repository.records == old(service.repository.records) - {id}
      ensures service.repository.nextId == old(service.repository.nextId)
    {
      var found := service.GetById(id);
      if found.None? {
        return NotFound;
      }
      var deleted := service.DeleteJogador(found);
      resp := Ok(());
    }

    /** PUT as written: after validation, the looked-up player gets the five fields of the
        request and is returned, but it is never handed back to the service, so nothing is
        written: the method has no licence to change the store. */
    method UpdateJogador(id: int, dto: JogadorDTO) returns (resp: Response<JogadorDTO>)
      requires Valid()
      ensures !IsValid(dto) ==> resp == HandleValidationException(Validate(dto))
      ensures IsValid(dto) ==> (resp.Ok? || resp.NotFound?)
      ensures IsValid(dto) ==> (resp.NotFound? <==> id !in service.repository.records)
      ensures IsValid(dto) && resp.Ok? ==> resp.body == dto.(id := Some(id))
    {
      var violations := Validate(dto);
      if violations != [] {
        return HandleValidationException(violations);
      }
      var found := service.GetById(id);
      if found.None? {
        return NotFound;
      }
      var jogador := found.value;
      jogador := jogador.(nome := dto.nome);
      jogador := jogador.(email := dto.email);
      jogador := jogador.(telefone := dto.telefone);
      jogador := jogador.(codinome := dto.codinome);
      jogador := jogador.(grupo := dto.grupo);
      resp := Ok(ToDTO(jogador));
    }

    /** PUT as its test expects it: the same answer, with the updated player handed to the
        service's update so that the store holds what the answer says. */
    method UpdateJogadorPersisted(id: int, dto: JogadorDTO) returns (resp: Response<JogadorDTO>)
      requires Valid()
      modifies service.repository
      ensures Valid()
      ensures !IsValid(dto) ==>
                resp == HandleValidationException(Validate(dto)) &&
                service.repository.records == old(service.repository.records)
      ensures IsValid(dto) ==> (resp.Ok? || resp.NotFound?)
      ensures IsValid(dto) ==> (resp.NotFound? <==> id !in old(service.repository.records))
      ensures resp.NotFound? ==> service.repository.records == old(service.repository.records)
      ensures service.repository.nextId == old(service.repository.nextId)
      ensures IsValid(dto) && resp.Ok? ==>
                resp.body == dto.(id := Some(id)) &&
                service.repository.records == old(service.repository.records)[id := ToEntity(resp.body)] &&
                GetById(id) == resp
    {
      var violations := Validate(dto);
      if violations != [] {
        return HandleValidationException(violations);
      }
      var found := service.GetById(id);
      if found.None? {
        return NotFound;
      }
      var jogador := found.value;
      jogador := jogador.(nome := dto.nome);
      jogador := jogador.(email := dto.email);
      jogador := jogador.(telefone := dto.telefone);
      jogador := jogador.(codinome := dto.codinome);
      jogador := jogador.(grupo := dto.grupo);
      var updated := service.UpdateJogador(Some(jogador));
      resp := Ok(ToDTO(updated.value));
    }

    /** GET with filter: the request's properties become the example; the service's page is
        copied item by item, in order, with its total and the request's page parameters. */
    function Find(dto: JogadorDTO, pageRequest: PageRequest): (p: Page<JogadorDTO>)
      reads service.repository
      requires Valid()
      ensures p.pageable == pageRequest && p.totalElements == |p.content|
      ensures var result := service.FindJogador(ToEntity(dto), pageRequest);
                |p.content| == |result.content| && p.totalElements == result.totalElements &&
                forall i :: 0 <= i < |p.content| ==> p.content[i] == ToDTO(result.content[i])
    {
      var result := service.FindJogador(ToEntity(dto), pageRequest);
      Page(ToDTOs(result.content), pageRequest, result.totalElements)
    }

    /** What GET with filter answers: stored players that match the request's properties, each
        exactly once, in ascending id order, and every stored player that matches. */
    lemma FindAnswersMatchingPlayers(dto: JogadorDTO, pageRequest: PageRequest)
      requires Valid()
      ensures var p := Find(dto, pageRequest);
                (forall i :: 0 <= i < |p.content| ==>
                   p.content[i].id.Some? && p.content[i].id.value in service.repository.records &&
                   service.repository.records[p.content[i].id.value] == ToEntity(p.content[i]) &&
                   ExampleMatches(ToEntity(dto), ToEntity(p.content[i]))) &&
                (forall k ::
                   (k in service.repository.records && ExampleMatches(ToEntity(dto), service.repository.records[k])) ==>
                   ToDTO(service.repository.records[k]) in p.content) &&
                (forall i, j :: 0 <= i < j < |p.content| ==> p.content[i].id.value < p.content[j].id.value) &&
                |p.content| <= |service.repository.records|
    {
      var p := Find(dto, pageRequest);
      var result := service.FindJogador(ToEntity(dto), pageRequest);
      forall k | k in service.repository.records && ExampleMatches(ToEntity(dto), service.repository.records[k])
        ensures ToDTO(service.repository.records[k]) in p.content
      {
        var i :| 0 <= i < |result.content| && result.content[i] == service.repository.records[k];
        assert p.content[i] == ToDTO(service.repository.records[k]);
      }
    }
  }

  /** The player the controller tests send. */
  function Felipe(): (dto: JogadorDTO)
    ensures IsValid(dto) && dto.id.None?
  {
    var dto := JogadorDTO(None, Some("Felipe"), Some("felipe@email.com"), Some("(11) 99999-9999"), Some("Hulk"), Some("Vingadores"));
    CompleteRequestIsValid(dto);
    dto
  }

  /** PUT as written answers with the new e-mail while a following GET still shows the old one. */
  method PutIsNotPersisted() returns (put: Response<JogadorDTO>, get: Response<JogadorDTO>)
    ensures put.Ok? && get.Ok? && put.body.id == get.body.id
    ensures put.body.email != get.body.email
  {
    var repository := new JogadorRepository();
    var service := new JogadorServiceImpl(repository);
    var controller := new JogadorController(service);
    var created := controller.Create(Felipe());
    assert created.Ok? && created.body.id == Some(1);
    var changed := Felipe().(email := Some("lipe@email.com"));
    CompleteRequestIsValid(changed);
    put := controller.UpdateJogador(1, changed);
    get := controller.GetById(1);
  }

  /** PUT once corrected: a following GET shows what the PUT answered. */
  method PutIsPersisted() returns (put: Response<JogadorDTO>, get: Response<JogadorDTO>)
    ensures put.Ok? && put == get
    ensures get.body.email == Some("lipe@email.com")
  {
    var repository := new JogadorRepository();
    var service := new JogadorServiceImpl(repository);
    var controller := new JogadorController(service);
    var created := controller.Create(Felipe());
    assert created.Ok? && created.body.id == Some(1);
    var changed := Felipe().(email := Some("lipe@email.com"));
    CompleteRequestIsValid(changed);
    put := controller.UpdateJogadorPersisted(1, changed);
    get := controller.GetById(1);
  }

  /** Filtering by the name of the only stored player returns that player and a total of 1. */
  method FilterByNameFindsTheOnlyPlayer() returns (page: Page<JogadorDTO>)
    ensures page.totalElements == 1 && |page.content| == 1
    ensures page.content[0].nome == Some("Felipe") && page.content[0].id == Some(1)
  {
    var repository := new JogadorRepository();
    var service := new JogadorServiceImpl(repository);
    var controller := new JogadorController(service);
    var created := controller.Create(Felipe());
    assert repository.records.Keys == {1};
    var filter := JogadorDTO(None, Some("Felipe"), None, None, None, None);
    RecordMatchesItsOwnName(repository.records[1]);
    page := controller.Find(filter, PageRequest(0, 10));
    controller.FindAnswersMatchingPlayers(filter, PageRequest(0, 10));
    assert ToDTO(repository.records[1]) in page.content;
  }
}
