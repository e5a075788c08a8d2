/** The player service: the codename rule on save, the null guards on delete and update,
    lookup by id and the filtered search. */
module Service {
  import opened Wrappers
  import opened Strings
  import opened Model
  import opened Repository

  /** The exceptions the service throws. */
  datatype ServiceError =
    | BusinessException(message: string)
    | IllegalArgumentException(message: string)

  /** Message of the business error raised by a save whose codename is already stored. */
  const CodinomeJaCadastrado: string := "Codinome já cadastrado"
  /** Message of the error raised by delete and update for a missing player or id. */
  const IdNaoPodeSerNulo: string := "O ID do jogador não pode ser nulo."

  /** One string property of the filter under the service's matcher: a null probe places no
      constraint; otherwise the stored value must contain the probe, ignoring case. */
  predicate TextMatches(probe: Text, value: Text)
    ensures probe.None? ==> TextMatches(probe, value)
    ensures value.None? ==> (TextMatches(probe, value) <==> probe.None?)
  {
    probe.None? || (value.Some? && ContainsIgnoreCase(value.value, probe.value))
  }

  /** The example built from the filter: every non-null property of the filter must match;
      the id, not being a string, must be equal. */
  predicate ExampleMatches(filter: Jogador, candidate: Jogador)
    ensures ExampleMatches(filter, candidate) && filter.id.Some? ==> candidate.id == filter.id
  {
    && (filter.id.None? || candidate.id == filter.id)
    && TextMatches(filter.nome, candidate.nome)
    && TextMatches(filter.email, candidate.email)
    && TextMatches(filter.telefone, candidate.telefone)
    && TextMatches(filter.codinome, candidate.codinome)
    && TextMatches(filter.grupo, candidate.grupo)
  }

  /** A non-null probe matches exactly the non-null values in which it occurs once both are
      lower-cased. */
  lemma TextMatchesIffOccurs(probe: string, value: Text)
    ensures TextMatches(Some(probe), value) <==>
      value.Some? && exists i :: OccursAt(LowerAll(value.value), LowerAll(probe), i)
  {
    if value.Some? {
      assert TextMatches(Some(probe), value) == Contains(LowerAll(value.value), LowerAll(probe));
      ContainsIffOccurs(LowerAll(value.value), LowerAll(probe));
    }
  }

  /** A probe matches the value it was taken from. */
  lemma TextMatchesItself(value: string)
    ensures TextMatches(Some(value), Some(value))
  {
    assert IsPrefix(LowerAll(value), LowerAll(value));
  }

  /** An empty probe matches every non-null value, and no null one. */
  lemma EmptyProbeMatchesNonNull(value: Text)
    ensures TextMatches(Some(""), value) <==> value.Some?
  {
    if value.Some? {
      ContainsEmpty(LowerAll(value.value));
    }
  }

  /** A filter whose properties are all null matches every record. */
  lemma NullFilterMatchesAll(candidate: Jogador)
    ensures ExampleMatches(Jogador(None, None, None, None, None, None), candidate)
  {
  }

  /** A record matches a filter built from its own name alone. */
  lemma RecordMatchesItsOwnName(candidate: Jogador)
    requires candidate.nome.Some?
    ensures ExampleMatches(Jogador(None, candidate.nome, None, None, None, None), candidate)
  {
    TextMatchesItself(candidate.nome.value);
  }

  class JogadorServiceImpl {
    const repository: JogadorRepository

    ghost predicate Valid()
      reads repository
    {
      repository.Valid()
    }

    constructor (repository: JogadorRepository)
      requires repository.Valid()
      ensures this.repository == repository && Valid()
    {
      this.repository := repository;
    }

    /** `save`: refuses a codename that is already stored, before anything is written;
        otherwise saves the player and returns what the store saved. */
    method Save(jogador: Jogador) returns (r: Result<Jogador, ServiceError>)
      requires Valid()
      modifies repository
      ensures Valid()
      ensures r.Failure? <==> old(CodinomeTaken(repository.records, jogador.codinome))
      ensures r.Failure? ==>
                r.error == BusinessException(CodinomeJaCadastrado) &&
                repository.records == old(repository.records) &&
                repository.nextId == old(repository.nextId)
      ensures r.Success? ==>
                r.value.(id := jogador.id) == jogador && r.value.id.Some? &&
                repository.records == old(repository.records)[r.value.id.value := r.value]
      ensures r.Success? && jogador.id.Some? && jogador.id.value in old(repository.records) ==>
                r.value == jogador && repository.nextId == old(repository.nextId)
      ensures r.Success? && !(jogador.id.Some? && jogador.id.value in old(repository.records)) ==>
                old(repository.nextId) !in old(repository.records) &&
                r.value == jogador.(id := Some(old(repository.nextId))) &&
                repository.nextId == old(repository.nextId) + 1
      ensures UniqueCodinomes(old(repository.records)) ==> UniqueCodinomes(repository.records)
    {
      if repository.ExistsByCodinome(jogador.codinome) {
        return Failure(BusinessException(CodinomeJaCadastrado));
      }
      ghost var before := repository.records;
      var saved := repository.Save(jogador);
      if UniqueCodinomes(before) {
        StoreFreshCodinomeKeepsUnique(before, saved.id.value, saved);
      }
      r := Success(saved);
    }

    /** `getById`: the stored player with this id, or an empty result; never an error. */
    function GetById(id: int): (r: Option<Jogador>)
      reads repository
      requires Valid()
      ensures r.None? <==> id !in repository.records
      ensures r.Some? ==> r.value.id == Some(id) && repository.records[id] == r.value
    {
      repository.FindById(id)
    }

    /** `deleteJogador`: a missing player or a player without id is refused before the store
        is touched; otherwise the row with that id is removed, without checking that it exists. */
    method DeleteJogador(jogador: Option<Jogador>) returns (r: Result<(), ServiceError>)
      requires Valid()
      modifies repository
      ensures Valid()
      ensures r.Failure? <==> jogador.None? || jogador.value.id.None?
      ensures r.Failure? ==>
                r.error == IllegalArgumentException(IdNaoPodeSerNulo) &&
                repository.records == old(repository.records)
      ensures r.Success? ==> repository.records == old(repository.records) - {jogador.value.id.value}
      ensures repository.nextId == old(repository.nextId)
      ensures UniqueCodinomes(old(repository.records)) ==> UniqueCodinomes(repository.records)
    {
      if jogador.None? || jogador.value.id.None? {
        return Failure(IllegalArgumentException(IdNaoPodeSerNulo));
      }
      repository.Delete(jogador.value);
      if UniqueCodinomes(old(repository.records)) {
        RemoveKeepsUnique(old(repository.records), jogador.value.id.value);
      }
      r := Success(());
    }

    /** `updateJogador`: a missing player or a player without id is refused before the store
        is touched; otherwise the player is saved as it is. The codename is not checked
        against the other rows. */
    method UpdateJogador(jogador: Option<Jogador>) returns (r: Result<Jogador, ServiceError>)
      requires Valid()
      modifies repository
      ensures Valid()
      ensures r.Failure? <==> jogador.None? || jogador.value.id.None?
      ensures r.Failure? ==>
                r.error == IllegalArgumentException(IdNaoPodeSerNulo) &&
                repository.records == old(repository.records) &&
                repository.nextId == old(repository.nextId)
      ensures r.Success? && jogador.value.id.value in old(repository.records) ==>
                r.value == jogador.value &&
                repository.records == old(repository.records)[jogador.value.id.value := jogador.value] &&
                repository.nextId == old(repository.nextId)
      ensures r.Success? && jogador.value.id.value !in old(repository.records) ==>
                old(repository.nextId) !in old(repository.records) &&
                r.value == jogador.value.(id := Some(old(repository.nextId))) &&
                repository.records == old(repository.records)[old(repository.nextId) := r.value] &&
                repository.nextId == old(repository.nextId) + 1
    {
      if jogador.None? || jogador.value.id.None? {
        return Failure(IllegalArgumentException(IdNaoPodeSerNulo));
      }
      var saved := repository.Save(jogador.value);
      r := Success(saved);
    }

    /** `findJogador`: the stored players that match the filter under the ignore-case,
        ignore-nulls, containing matcher, with their number. */
    function FindJogador(filter: Jogador, pageRequest: PageRequest): (p: Page<Jogador>)
      reads repository
      requires Valid()
      ensures p.pageable == pageRequest && p.totalElements == |p.content|
      ensures forall i :: 0 <= i < |p.content| ==>
                p.content[i].id.Some? && p.content[i].id.value in repository.records &&
                repository.records[p.content[i].id.value] == p.content[i] &&
                ExampleMatches(filter, p.content[i])
      ensures forall k :: k in repository.records && ExampleMatches(filter, repository.records[k]) ==>
                repository.records[k] in p.content
      ensures forall i, j :: 0 <= i < j < |p.content| ==> p.content[i].id.value < p.content[j].id.value
      ensures |p.content| <= |repository.records|
    {
      repository.FindAll(candidate => ExampleMatches(filter, candidate), pageRequest)
    }
  }

  /** Update does not re-check the codename: starting from two players with distinct
      codenames, updating the second one with the first one's codename succeeds and leaves
      two rows with the same codename. */
  method UpdateCanDuplicateCodinome() returns (service: JogadorServiceImpl, r: Result<Jogador, ServiceError>)
    ensures r.Success?
    ensures !UniqueCodinomes(service.repository.records)
  {
    var repository := new JogadorRepository();
    service := new JogadorServiceImpl(repository);
    var hulk := service.Save(Jogador(None, Some("Felipe"), Some("felipe@email.com"), Some("(11) 99999-9999"), Some("Hulk"), Some("Vingadores")));
    var thor := service.Save(Jogador(None, Some("Ana"), Some("ana@email.com"), Some("(11) 98888-8888"), Some("Thor"), Some("Vingadores")));
    assert hulk.Success? && thor.Success?;
    r := service.UpdateJogador(Some(thor.value.(codinome := Some("Hulk"))));
    assert repository.records[1].codinome == repository.records[2].codinome;
  }
}
