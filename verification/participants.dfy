/** `to_participant` (hack_ui/app.py): turning actor ids into participant
    names through the participant map. */
module Participants {
  import opened PyStr

  /** One entry of the participant map: an actor id and its participant id. */
  datatype Binding = Binding(aid: string, pid: string)

  /** The name `to_participant` produces: the map's entries taken in
      iteration order, each replacing every occurrence of its actor id in
      the string built so far by the participant id less its last two
      characters. */
  function Rename(actor: string, mapping: seq<Binding>): string
    decreases |mapping|
  {
    if mapping == [] then actor
    else Rename(Replace(actor, mapping[0].aid, DropLastTwo(mapping[0].pid)), mapping[1..])
  }

  /** The loop of `to_participant`, reassigning the running name once per entry. */
  method ToParticipant(actor: string, mapping: seq<Binding>) returns (name: string)
    ensures name == Rename(actor, mapping)
  {
    name := actor;
    for i := 0 to |mapping|
      invariant Rename(name, mapping[i..]) == Rename(actor, mapping)
    {
      assert mapping[i..][1..] == mapping[i + 1..];
      name := Replace(name, mapping[i].aid, DropLastTwo(mapping[i].pid));
    }
    assert mapping[|mapping|..] == [];
  }

  /** Later entries act on the output of earlier ones: renaming through a
      concatenated map is renaming through the first part, then the second. */
  lemma {:induction false} RenameSequential(actor: string, first: seq<Binding>, second: seq<Binding>)
    ensures Rename(actor, first + second) == Rename(Rename(actor, first), second)
    decreases |first|
  {
    if first != [] {
      assert (first + second)[1..] == first[1..] + second;
      RenameSequential(Replace(actor, first[0].aid, DropLastTwo(first[0].pid)), first[1..], second);
    } else {
      assert first + second == second;
    }
  }

  /** When no actor id of the map occurs in the string, it comes back unchanged. */
  lemma {:induction false} RenameUntouched(actor: string, mapping: seq<Binding>)
    requires forall k | 0 <= k < |mapping| :: !Occurs(mapping[k].aid, actor)
    ensures Rename(actor, mapping) == actor
    decreases |mapping|
  {
    if mapping != [] {
      ReplaceAbsent(actor, mapping[0].aid, DropLastTwo(mapping[0].pid));
      RenameUntouched(actor, mapping[1..]);
    }
  }

  /** An actor string that is exactly a non-empty actor id becomes the
      trimmed participant id. */
  lemma RenameWholeId(aid: string, pid: string)
    requires aid != []
    ensures Rename(aid, [Binding(aid, pid)]) == DropLastTwo(pid)
  {
    ReplaceWhole(aid, DropLastTwo(pid));
  }

  /** A participant id of at most two characters trims to the empty string,
      so its entry deletes every occurrence of the actor id: what is left is
      the text between the occurrences. */
  lemma ShortPidDeletes(actor: string, aid: string, pid: string)
    requires aid != [] && |pid| <= 2
    ensures Rename(actor, [Binding(aid, pid)]) == Join([], Split(actor, aid))
  {
    ReplaceIsJoinOfSplit(actor, aid, []);
  }

  /** The map `{"a1": "P1ID"}` renames `"a1"` to `"P1"`. */
  lemma RenameExample()
    ensures Rename("a1", [Binding("a1", "P1ID")]) == "P1"
  {
    RenameWholeId("a1", "P1ID");
  }
}
