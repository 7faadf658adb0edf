/**
 * The interaction shell: the participant list, the last draw and the reveal
 * position, updated one user action at a time.
 */
module Shell {
  import opened Common
  import Engine

  /** The list without `name`, in the same order (the filter of the remove handler). */
  function Without(s: seq<string>, name: string): (r: seq<string>)
    ensures forall x :: x in r <==> x in s && x != name
    ensures name !in s ==> r == s
    ensures Distinct(s) ==> Distinct(r) && (name in s ==> |r| == |s| - 1)
  {
    if s == [] then []
    else if s[0] == name then Without(s[1..], name)
    else
      var rest := Without(s[1..], name);
      DistinctPrepend(s[0], rest);
      [s[0]] + rest
  }

  class App {
    /** The participants, in the order they were added. */
    var names: seq<string>
    /** The text box. */
    var input: string
    /** The last successful draw; empty while on the draw screen. */
    var pairs: seq<Pair>
    /** The entry of `pairs` being revealed. */
    var currentIndex: nat
    /** Whether the receiver of the current entry is shown. */
    var revealed: bool
    /** The message under the list; `None` is the empty text. */
    var error: Option<Error>

    /**
     * The shell's invariant: no name twice and none empty, and a draw on
     * screen is an assignment set whose reveal position lies inside it.
     */
    ghost predicate Valid()
      reads this
    {
      && Distinct(names)
      && "" !in names
      && (pairs == [] ==> currentIndex == 0)
      && (pairs != [] ==> currentIndex < |pairs| && Engine.IsAssignmentSet(pairs))
    }

    constructor ()
      ensures Valid()
      ensures names == [] && input == "" && error == None
      ensures pairs == [] && currentIndex == 0 && !revealed
    {
      names, input, pairs := [], "", [];
      currentIndex, revealed, error := 0, false, None;
    }

    /** The draw button is enabled exactly when no random source makes the engine refuse the list as too short. */
    function CanDraw(): (b: bool)
      reads this
      ensures b <==> forall draw: Engine.Draws :: Engine.DrawsInRange(draw, |names|) ==>
                       Engine.Assign(names, draw) != Err(InsufficientParticipants)
    {
      Engine.NeverTooFewIff(names);
      |names| >= Engine.MIN_PLAYERS
    }

    /** The entry being revealed, if the reveal position lies inside the draw. */
    function CurrentPair(): (p: Option<Pair>)
      reads this
      ensures Valid() ==> (p.Some? <==> pairs != [])
      ensures p.Some? ==> p.value in pairs
    {
      if currentIndex < |pairs| then Some(pairs[currentIndex]) else None
    }

    /** Typing into the text box. */
    method SetInput(text: string)
      requires Valid()
      modifies this`input
      ensures Valid() && input == text
    {
      input := text;
    }

    /**
     * Adds the trimmed text as a participant: an empty trim changes nothing, a
     * name already on the list is refused with `DuplicateParticipant`, and
     * otherwise the name is appended, the text box emptied and the error cleared.
     * `trim` is the host's `String.prototype.trim`.
     */
    method Add(trim: string -> string)
      requires Valid()
      modifies this`names, this`input, this`error
      ensures Valid()
      ensures var trimmed := trim(old(input));
        if trimmed == "" then
          names == old(names) && input == old(input) && error == old(error)
        else if trimmed in old(names) then
          names == old(names) && input == old(input) && error == Some(DuplicateParticipant)
        else
          names == old(names) + [trimmed] && input == "" && error == None
    {
      var trimmed := trim(input);
      if trimmed == "" {
        return;
      }
      if trimmed in names {
        error := Some(DuplicateParticipant);
        return;
      }
      names := names + [trimmed];
      input := "";
      error := None;
    }

    /** Removes every occurrence of `name` and clears the error. */
    method Remove(name: string)
      requires Valid()
      modifies this`names, this`error
      ensures Valid()
      ensures names == Without(old(names), name) && error == None
    {
      names := Without(names, name);
      error := None;
    }

    /** The "clear list" button: empties the participant list and nothing else. */
    method ClearList()
      requires Valid()
      modifies this`names
      ensures Valid() && names == []
    {
      names := [];
    }

    /**
     * Runs the engine on the current list: a success replaces the draw and
     * starts its reveal at the first entry, hidden; a failure only sets the
     * error and leaves the previous draw and its reveal position as they were.
     */
    method Draw(draw: Engine.Draws)
      requires Valid() && Engine.DrawsInRange(draw, |names|)
      modifies this`pairs, this`currentIndex, this`revealed, this`error
      ensures Valid()
      ensures match Engine.Assign(names, draw)
        case Ok(ps) => pairs == ps && currentIndex == 0 && !revealed && error == None
        case Err(e) =>
          && pairs == old(pairs) && currentIndex == old(currentIndex) && revealed == old(revealed)
          && error == Some(e)
    {
      var result := Engine.BuildAssignments(names, draw);
      match result
      case Ok(ps) =>
        Engine.AssignSound(names, draw);
        Engine.ValidAssignmentIsAssignmentSet(names, ps);
        pairs, currentIndex, revealed, error := ps, 0, false, None;
      case Err(e) =>
        error := Some(e);
    }

    /** The "show" button: reveals the receiver of the current entry. */
    method Reveal()
      requires Valid()
      modifies this`revealed
      ensures Valid() && revealed
    {
      revealed := true;
    }

    /**
     * Moves to the next entry, hidden; after the last entry, returns to the
     * draw screen.
     */
    method Next()
      requires Valid()
      modifies this`pairs, this`currentIndex, this`revealed
      ensures Valid()
      ensures old(currentIndex) < |old(pairs)| - 1 ==>
        pairs == old(pairs) && currentIndex == old(currentIndex) + 1 && !revealed
      ensures old(currentIndex) >= |old(pairs)| - 1 ==>
        pairs == [] && currentIndex == 0 && !revealed
    {
      if currentIndex < |pairs| - 1 {
        currentIndex := currentIndex + 1;
        revealed := false;
      } else {
        Reset();
      }
    }

    /** Discards the draw and returns to the draw screen. */
    method Reset()
      requires Valid()
      modifies this`pairs, this`currentIndex, this`revealed
      ensures Valid()
      ensures pairs == [] && currentIndex == 0 && !revealed
    {
      pairs := [];
      currentIndex := 0;
      revealed := false;
    }
  }
}
