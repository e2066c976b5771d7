/**
  The candidate value type shared by both workers: a repository name and a connection string,
  either of which may be null.
 */
module SharedLibs {
  import opened Wrappers
  import opened Strings

  datatype IdentifiedConnectionString = IdentifiedConnectionString(repository: Option<string>, connectionString: Option<string>)
  {
    /** Neither field is null, empty or white space only. */
    predicate HasAllFields()
      ensures HasAllFields() ==> repository.Some? && |repository.value| > 0
      ensures HasAllFields() ==> connectionString.Some? && |connectionString.value| > 0
    {
      !IsNullOrWhiteSpace(repository) && !IsNullOrWhiteSpace(connectionString)
    }

    /**
      Equals(object obj): false for null and for objects of another type; otherwise ordinal equality
      of both fields, which is equality of the two candidate values.
     */
    predicate Equals(obj: Object)
      ensures Equals(obj) <==> obj == Candidate(this)
    {
      match obj
      case Null => false
      case Other => false
      case Candidate(x) => repository == x.repository && connectionString == x.connectionString
    }

    /**
      GetHashCode(): the hash of the empty string, XOR the hash of each non-null field.
      `stringHash` is string.GetHashCode, a deterministic function left uninterpreted. Null fields
      are skipped, never dereferenced, and two equal fields cancel out.
     */
    function GetHashCode(stringHash: string -> bv32): (r: bv32)
      ensures repository.None? && connectionString.None? ==> r == stringHash("")
      ensures repository.Some? && repository == connectionString ==> r == stringHash("")
    {
      var hash := stringHash("");
      var hash := if repository.Some? then hash ^ stringHash(repository.value) else hash;
      if connectionString.Some? then hash ^ stringHash(connectionString.value) else hash
    }
  }

  /** The argument of Equals(object): null, a candidate, or an object of any other type. */
  datatype Object = Null | Candidate(candidate: IdentifiedConnectionString) | Other

  /** HasAllFields holds iff each field is present and holds a character that is not white space. */
  lemma HasAllFieldsMeaning(c: IdentifiedConnectionString)
    ensures c.HasAllFields() <==>
      && c.repository.Some? && (exists i | 0 <= i < |c.repository.value| :: !IsWhiteSpace(c.repository.value[i]))
      && c.connectionString.Some? && (exists i | 0 <= i < |c.connectionString.value| :: !IsWhiteSpace(c.connectionString.value[i]))
  {
  }

  /** Equals is an equivalence relation on candidates. */
  lemma EqualsIsEquivalence(a: IdentifiedConnectionString, b: IdentifiedConnectionString, c: IdentifiedConnectionString)
    ensures a.Equals(Candidate(a))
    ensures a.Equals(Candidate(b)) <==> b.Equals(Candidate(a))
    ensures a.Equals(Candidate(b)) && b.Equals(Candidate(c)) ==> a.Equals(Candidate(c))
  {
  }

  /** Equal candidates have equal hash codes, so hash-based Distinct and HashSet deduplicate by Equals. */
  lemma EqualsImpliesSameHash(a: IdentifiedConnectionString, obj: Object, stringHash: string -> bv32)
    requires a.Equals(obj)
    ensures a.GetHashCode(stringHash) == obj.candidate.GetHashCode(stringHash)
  {
  }

  /** XOR is commutative: swapping the two fields leaves the hash unchanged. */
  lemma HashIgnoresFieldOrder(a: Option<string>, b: Option<string>, stringHash: string -> bv32)
    ensures IdentifiedConnectionString(a, b).GetHashCode(stringHash) == IdentifiedConnectionString(b, a).GetHashCode(stringHash)
  {
  }
}
