/** The request and response representation of a player, and its field validation. */
module Dto {
  import opened Wrappers

  /** The representation exchanged with clients. `id` carries no constraint; the five other
      fields are each required to be present and non-empty. */
  datatype JogadorDTO = JogadorDTO(
    id: Option<int>,
    nome: Option<string>,
    email: Option<string>,
    telefone: Option<string>,
    codinome: Option<string>,
    grupo: Option<string>)

  /** The five constrained fields. */
  datatype Field = Nome | Email | Telefone | Codinome | Grupo

  /** The constrained fields in declaration order. */
  const Fields: seq<Field> := [Nome, Email, Telefone, Codinome, Grupo]

  function FieldValue(dto: JogadorDTO, f: Field): Option<string>
  {
    match f
    case Nome => dto.nome
    case Email => dto.email
    case Telefone => dto.telefone
    case Codinome => dto.codinome
    case Grupo => dto.grupo
  }

  /** The not-empty constraint on a string: not null and at least one character long. */
  predicate NotEmpty(v: Option<string>)
  {
    v.Some? && |v.value| > 0
  }

  /** The fields among `fields` whose value breaks the not-empty constraint, in the order of `fields`. */
  function Violations(dto: JogadorDTO, fields: seq<Field>): (errors: seq<Field>)
    ensures forall f :: f in errors <==> f in fields && !NotEmpty(FieldValue(dto, f))
    ensures |errors| <= |fields|
  {
    if fields == [] then []
    else
      var rest := Violations(dto, fields[1..]);
      if NotEmpty(FieldValue(dto, fields[0])) then rest else [fields[0]] + rest
  }

  /** Validation of a request: one error per constrained field that is null or empty. */
  function Validate(dto: JogadorDTO): (errors: seq<Field>)
    ensures forall f :: f in errors <==> !NotEmpty(FieldValue(dto, f))
  {
    Violations(dto, Fields)
  }

  /** A request is valid when validation reports nothing. */
  predicate IsValid(dto: JogadorDTO)
  {
    Validate(dto) == []
  }

  /** 1 when the field breaks its constraint, 0 otherwise. */
  function Failing(v: Option<string>): nat
  {
    if NotEmpty(v) then 0 else 1
  }

  /** Independent count of the constrained fields that are null or empty. */
  function FailingCount(dto: JogadorDTO): nat
  {
    Failing(dto.nome) + Failing(dto.email) + Failing(dto.telefone) + Failing(dto.codinome) + Failing(dto.grupo)
  }

  /** Each field is checked on its own: validation reports exactly as many errors as
      there are null or empty fields. */
  lemma {:induction false} ValidateCountsFailingFields(dto: JogadorDTO)
    ensures |Validate(dto)| == FailingCount(dto)
  {
    var v4 := Violations(dto, [Grupo]);
    assert Violations(dto, []) == [];
    assert [Grupo][1..] == [];
    assert |v4| == Failing(dto.grupo);
    var v3 := Violations(dto, [Codinome, Grupo]);
    assert [Codinome, Grupo][1..] == [Grupo];
    assert |v3| == Failing(dto.codinome) + |v4|;
    var v2 := Violations(dto, [Telefone, Codinome, Grupo]);
    assert [Telefone, Codinome, Grupo][1..] == [Codinome, Grupo];
    assert |v2| == Failing(dto.telefone) + |v3|;
    var v1 := Violations(dto, [Email, Telefone, Codinome, Grupo]);
    assert [Email, Telefone, Codinome, Grupo][1..] == [Telefone, Codinome, Grupo];
    assert |v1| == Failing(dto.email) + |v2|;
    assert Fields[1..] == [Email, Telefone, Codinome, Grupo];
    assert |Validate(dto)| == Failing(dto.nome) + |v1|;
  }

  /** No field is reported twice. */
  lemma {:induction false} ViolationsAreDistinct(dto: JogadorDTO, fields: seq<Field>)
    requires forall i, j :: 0 <= i < j < |fields| ==> fields[i] != fields[j]
    ensures forall i, j :: 0 <= i < j < |Violations(dto, fields)| ==>
              Violations(dto, fields)[i] != Violations(dto, fields)[j]
  {
    if fields != [] {
      ViolationsAreDistinct(dto, fields[1..]);
      var rest := Violations(dto, fields[1..]);
      assert fields[0] !in fields[1..];
      assert fields[0] !in rest;
    }
  }

  /** The id is not one of the constrained fields, so it takes no part in the checks. */
  lemma {:induction false} ViolationsIgnoreId(dto: JogadorDTO, id: Option<int>, fields: seq<Field>)
    ensures Violations(dto.(id := id), fields) == Violations(dto, fields)
  {
    if fields != [] {
      ViolationsIgnoreId(dto, id, fields[1..]);
      assert FieldValue(dto.(id := id), fields[0]) == FieldValue(dto, fields[0]);
    }
  }

  /** The id takes no part in validation. */
  lemma ValidateIgnoresId(dto: JogadorDTO, id: Option<int>)
    ensures Validate(dto.(id := id)) == Validate(dto)
  {
    ViolationsIgnoreId(dto, id, Fields);
  }

  /** A request with every constrained field missing reports five errors. */
  lemma AllFieldsMissingGiveFiveErrors(id: Option<int>)
    ensures |Validate(JogadorDTO(id, None, None, None, None, None))| == 5
  {
    ValidateCountsFailingFields(JogadorDTO(id, None, None, None, None, None));
  }

  /** A request whose five constrained fields are all non-empty passes validation. */
  lemma CompleteRequestIsValid(dto: JogadorDTO)
    requires NotEmpty(dto.nome) && NotEmpty(dto.email) && NotEmpty(dto.telefone)
    requires NotEmpty(dto.codinome) && NotEmpty(dto.grupo)
    ensures IsValid(dto)
  {
    ValidateCountsFailingFields(dto);
  }

  /** Validity holds exactly when all five constrained fields are non-empty. */
  lemma IsValidIffAllNotEmpty(dto: JogadorDTO)
    ensures IsValid(dto) <==>
      NotEmpty(dto.nome) && NotEmpty(dto.email) && NotEmpty(dto.telefone) &&
      NotEmpty(dto.codinome) && NotEmpty(dto.grupo)
  {
    var errors := Validate(dto);
    if errors == [] {
      assert Nome !in errors && Email !in errors && Telefone !in errors;
      assert Codinome !in errors && Grupo !in errors;
    } else {
      assert errors[0] in errors;
    }
  }
}
