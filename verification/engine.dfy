/** The strategy selector: a session's `comparisonType` names the repository
    class that serves it. */
module Engine {
  import opened Types

  datatype Strategy = Exhaustive | AssumedTransitive

  /** `NotImplementedError("Comparison type not implemented")`. */
  datatype EngineError = NotImplemented

  /** The string each strategy is stored under. */
  function ModeName(s: Strategy): (name: string)
    ensures name == "full" || name == "assuming"
  {
    match s
    case Exhaustive => "full"
    case AssumedTransitive => "assuming"
  }

  /** The selection on the raw mode string: exact, case-sensitive equality
      with one of the two names, and an error for anything else. */
  function Select(mode: string): (r: Result<Strategy, EngineError>)
    ensures r == Ok(Exhaustive) <==> mode == "full"
    ensures r == Ok(AssumedTransitive) <==> mode == "assuming"
    ensures r == Err(NotImplemented) <==> mode != "full" && mode != "assuming"
  {
    if mode == "full" then Ok(Exhaustive)
    else if mode == "assuming" then Ok(AssumedTransitive)
    else Err(NotImplemented)
  }

  /** `get_comparison_repository`. */
  function RepositoryFor(session: Session): (r: Result<Strategy, EngineError>)
    ensures r.Ok? ==> ModeName(r.value) == session.comparisonType
    ensures r.Err? <==> session.comparisonType != "full" && session.comparisonType != "assuming"
  {
    Select(session.comparisonType)
  }

  /** Every strategy is selected by its own name and by no other string. */
  lemma SelectRoundTrip(s: Strategy, mode: string)
    ensures Select(ModeName(s)) == Ok(s)
    ensures Select(mode) == Ok(s) <==> mode == ModeName(s)
  {
  }

  /** The selection reads nothing of the session but its comparison type. */
  lemma OnlyTypeMatters(a: Session, b: Session)
    ensures a.comparisonType == b.comparisonType ==> RepositoryFor(a) == RepositoryFor(b)
    ensures RepositoryFor(a) != RepositoryFor(b) ==> a.comparisonType != b.comparisonType
  {
  }

  /** Spelling matters: other capitalisations, padding and prefixes fail. */
  lemma CaseSensitive()
    ensures Select("Full") == Err(NotImplemented)
    ensures Select("ASSUMING") == Err(NotImplemented)
    ensures Select("full ") == Err(NotImplemented)
    ensures Select("") == Err(NotImplemented)
  {
  }
}
