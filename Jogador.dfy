/** The persisted player entity and the uniqueness rule on its codename. */
module Model {
  import opened Wrappers

  /** A Java String field: null (None) or a text. */
  type Text = Option<string>

  /** A player record. `id` is the identity column: None until the store assigns one. */
  datatype Jogador = Jogador(
    id: Option<int>,
    nome: Text,
    email: Text,
    telefone: Text,
    codinome: Text,
    grupo: Text)

  /** Some stored record carries codename `c` (exact, case-sensitive comparison). */
  predicate CodinomeTaken(records: map<int, Jogador>, c: Text)
  {
    exists k :: k in records && records[k].codinome == c
  }

  /** The unique column: no two stored records share a codename. */
  ghost predicate UniqueCodinomes(records: map<int, Jogador>)
  {
    forall a, b :: a in records && b in records && a != b ==> records[a].codinome != records[b].codinome
  }

  /** Storing a record whose codename no other record holds keeps the codenames unique,
      whether `k` is a new key or an existing one being overwritten. */
  lemma StoreFreshCodinomeKeepsUnique(records: map<int, Jogador>, k: int, j: Jogador)
    requires UniqueCodinomes(records)
    requires !CodinomeTaken(records, j.codinome)
    ensures UniqueCodinomes(records[k := j])
  {
    var m := records[k := j];
    forall a, b | a in m && b in m && a != b
      ensures m[a].codinome != m[b].codinome
    {
      if a == k {
        assert b in records && records[b].codinome != j.codinome;
      } else if b == k {
        assert a in records && records[a].codinome != j.codinome;
      }
    }
  }

  /** Removing records never creates a duplicate codename. */
  lemma RemoveKeepsUnique(records: map<int, Jogador>, k: int)
    requires UniqueCodinomes(records)
    ensures UniqueCodinomes(records - {k})
  {
  }
}
