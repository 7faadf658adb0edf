/** Values shared by the assignment engine and the interaction shell. */
module Common {

  /** One entry of a draw: `giver` buys a present for `receiver`. */
  datatype Pair = Pair(giver: string, receiver: string)

  /** The three failures the program reports (the user-facing texts are not modelled). */
  datatype Error =
    | InsufficientParticipants  // fewer than the minimum number of names
    | NoValidAssignmentFound    // every attempt was rejected
    | DuplicateParticipant      // the typed name is already on the list

  /** The outcome of the engine: a value, or the error it throws. */
  datatype Result<T> = Ok(value: T) | Err(error: Error)

  /** An optional value; `None` stands for the empty error text of the shell. */
  datatype Option<T> = None | Some(value: T)

  /** No participant name occurs twice. */
  predicate Distinct<T(==)>(s: seq<T>) {
    forall i, j :: 0 <= i < j < |s| ==> s[i] != s[j]
  }

  /** Putting a new name in front of a list without repeats keeps it without repeats. */
  lemma DistinctPrepend<T>(x: T, s: seq<T>)
    ensures Distinct(s) && x !in s ==> Distinct([x] + s)
  {
    if Distinct(s) && x !in s {
      forall i, j | 0 <= i < j < |[x] + s|
        ensures ([x] + s)[i] != ([x] + s)[j]
      {
        if i > 0 {
          assert ([x] + s)[i] == s[i - 1];
        }
        assert ([x] + s)[j] == s[j - 1];
      }
    }
  }
}
