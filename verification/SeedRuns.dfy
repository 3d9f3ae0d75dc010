/** Runs of assignments: which phrases can be loaded again, and whatever is assigned after them. */
module SeedRuns {
  import opened Basics
  import opened SeedHash
  import opened SeedStore

  /** The store after assigning each phrase in turn, each under its own password. */
  function AssignAll(vault: Vault, slots: Slots, phrases: seq<Phrase>, passwords: nat -> string, moments: nat -> Moment): Slots {
    if phrases == [] then slots else
      var n := |phrases| - 1;
      Assign(vault, AssignAll(vault, slots, phrases[..n], passwords, moments), phrases[n], passwords(n), moments(n)).slots
  }

  /** The i-th assignment of a run. */
  function AssignmentAt(vault: Vault, slots: Slots, phrases: seq<Phrase>, passwords: nat -> string, moments: nat -> Moment,
                        i: nat): Assignment
    requires i < |phrases|
  {
    Assign(vault, AssignAll(vault, slots, phrases[..i], passwords, moments), phrases[i], passwords(i), moments(i))
  }

  /** The i-th phrase was stored by its own assignment. */
  predicate StoredAt(vault: Vault, slots: Slots, phrases: seq<Phrase>, passwords: nat -> string, moments: nat -> Moment, i: nat)
    requires i < |phrases|
  {
    AssignmentAt(vault, slots, phrases, passwords, moments, i).slots != AssignAll(vault, slots, phrases[..i], passwords, moments)
  }

  /**
   A newly assigned phrase takes the smallest free slot from 1 on, so only slot 0 can be a hole below
   it: it can be loaded if and only if slot 0 is filled.
   */
  lemma AssignedLoadsIff(vault: Vault, slots: Slots, phrase: Phrase, password: string, moment: Moment)
    requires vault.Sound() && Numbered(slots) && Assign(vault, slots, phrase, password, moment).slots != slots
    ensures var a := Assign(vault, slots, phrase, password, moment);
            a.number.Some? && a.number.value >= 1 && SlotAt(slots, a.number.value).None? &&
            Load(vault, a.slots, a.number.value, password) == if SlotAt(slots, 0).Some? then Some(phrase) else None
  {
    hide Load, Stored;
    SaveThenLoad(vault, slots, NextFree(slots, 1), phrase, password, false, ImportedLabel(NextFree(slots, 1)), moment);
  }

  /** An assignment leaves every seed that could be loaded loadable. */
  lemma AssignKeepsLoads(vault: Vault, slots: Slots, phrase: Phrase, password: string, moment: Moment, n: nat, other: string)
    requires Numbered(slots) && Load(vault, slots, n, other).Some?
    ensures Load(vault, Assign(vault, slots, phrase, password, moment).slots, n, other) == Load(vault, slots, n, other)
  {
    hide Load, Stored;
    var a := Assign(vault, slots, phrase, password, moment);
    if a.slots != slots {
      LoadableIsFilled(vault, slots, n, other);
      SaveKeepsOthers(vault, slots, a.number.value,
                      NewSeed(vault, a.number.value, phrase, password, false, ImportedLabel(a.number.value), moment,
                              vault.encrypt(phrase, password, moment).value), n, other);
    }
  }

  lemma LoadableIsFilled(vault: Vault, slots: Slots, n: nat, password: string)
    requires Numbered(slots) && Load(vault, slots, n, password).Some?
    ensures SlotAt(slots, n).Some? && SlotAt(slots, 0).Some?
  {
    FindExact(slots, n);
  }

  /** A run keeps the numbering and every seed where it was, and never touches slot 0. */
  lemma {:induction false} RunKeepsSeeds(vault: Vault, slots: Slots, phrases: seq<Phrase>, passwords: nat -> string,
                                         moments: nat -> Moment)
    requires Numbered(slots)
    ensures var after := AssignAll(vault, slots, phrases, passwords, moments);
            Numbered(after) && SlotAt(after, 0) == SlotAt(slots, 0) &&
            forall i: nat :: SlotAt(slots, i).Some? ==> SlotAt(after, i) == SlotAt(slots, i)
  {
    hide Assign, Numbered;
    if phrases != [] {
      var n := |phrases| - 1;
      RunKeepsSeeds(vault, slots, phrases[..n], passwords, moments);
      AssignSpec(vault, AssignAll(vault, slots, phrases[..n], passwords, moments), phrases[n], passwords(n), moments(n));
    }
  }

  /**
   From any numbered store, over any run of assignments: each phrase the run stored loads at the end,
   under the number and the password it was given, if and only if the store had its slot 0, that is,
   the main seed, filled. Holes elsewhere do not matter.
   */
  lemma {:induction false} AssignedPhrasesLoadIff(vault: Vault, slots: Slots, phrases: seq<Phrase>, passwords: nat -> string,
                                                  moments: nat -> Moment, i: nat)
    requires vault.Sound() && Numbered(slots)
    requires i < |phrases| && StoredAt(vault, slots, phrases, passwords, moments, i)
    ensures var after := AssignAll(vault, slots, phrases, passwords, moments);
            var number := AssignmentAt(vault, slots, phrases, passwords, moments, i).number;
            number.Some? && Load(vault, after, number.value, passwords(i)) == if SlotAt(slots, 0).Some? then Some(phrases[i]) else None
  {
    hide Assign, Numbered, Load, Vault.Sound, SlotAt;
    var n := |phrases| - 1;
    var before := AssignAll(vault, slots, phrases[..n], passwords, moments);
    RunKeepsSeeds(vault, slots, phrases[..n], passwords, moments);
    if i < n {
      assert phrases[..n][..i] == phrases[..i];
      AssignedPhrasesLoadIff(vault, slots, phrases[..n], passwords, moments, i);
      var number := AssignmentAt(vault, slots, phrases, passwords, moments, i).number.value;
      if SlotAt(slots, 0).Some? {
        AssignKeepsLoads(vault, before, phrases[n], passwords(n), moments(n), number, passwords(i));
      } else {
        RunKeepsSeeds(vault, slots, phrases, passwords, moments);
        NothingLoadsWithoutSlotZero(vault, AssignAll(vault, slots, phrases, passwords, moments), number, passwords(i));
      }
    } else {
      AssignedLoadsIff(vault, before, phrases[n], passwords(n), moments(n));
    }
  }

  /** While slot 0 is empty no seed of a numbered store can be loaded. */
  lemma NothingLoadsWithoutSlotZero(vault: Vault, slots: Slots, n: nat, password: string)
    requires Numbered(slots) && SlotAt(slots, 0).None?
    ensures Load(vault, slots, n, password) == None
  {
    FindExact(slots, n);
  }

  // The whole store, over every sequence of its operations.

  /** Each slot holds its own seed, and the legacy imports are numbered in order. */
  ghost predicate WellNumbered(s: Store) {
    Numbered(s.unified.UnwrapOr([])) && s.imported.Valid()
  }

  lemma OperationKeepsNumbering(vault: Vault, s: Store, op: Operation, t: Store)
    requires WellNumbered(s) && Performs(vault, s, op, t)
    ensures WellNumbered(t)
    ensures t.main == s.main
    ensures forall i: nat :: SlotAt(s.unified.UnwrapOr([]), i).Some? ==> SlotAt(t.unified.UnwrapOr([]), i).Some?
    ensures forall i: nat :: !(op.SaveSeed? && op.number == i) && SlotAt(s.unified.UnwrapOr([]), i).Some? ==>
              SlotAt(t.unified.UnwrapOr([]), i) == SlotAt(s.unified.UnwrapOr([]), i)
  {
    hide Stored, Assign, LoadMain, ImportedPhrase, Imported.Valid;
    var slots, after := s.unified.UnwrapOr([]), t.unified.UnwrapOr([]);
    match op
    case SaveSeed(n, phrase, password, isMain, labelText, moment) =>
      if t.unified != s.unified {
        StoredSpec(slots, n, NewSeed(vault, n, phrase, password, isMain, labelText, moment, vault.encrypt(phrase, password, moment).value));
      }
    case AssignSeed(phrase, password, moment) => AssignSpec(vault, slots, phrase, password, moment);
    case ImportSeed(_) =>
    case Migrate(password, moments) =>
      if !HasSeeds(slots) {
        forall i | 0 <= i < |after| && after[i].Some? ensures after[i].value.seedNumber == i {
          assert SlotAt(after, i) == after[i];
        }
        assert forall i: nat :: SlotAt(slots, i).None?;
      }
  }

  /** A run of operations: each store follows from the one before. */
  ghost predicate IsRun(vault: Vault, stores: seq<Store>, ops: seq<Operation>) {
    |stores| == |ops| + 1 && forall i :: 0 <= i < |ops| ==> Performs(vault, stores[i], ops[i], stores[i + 1])
  }

  /**
   Whatever sequence of saves, assignments, imports and migrations a new manager goes through, each
   slot is empty or holds the seed with that slot's number, and a filled slot stays filled.
   */
  lemma {:induction false} StoreStaysNumbered(vault: Vault, main: Option<MainSeed>, stores: seq<Store>, ops: seq<Operation>, i: nat, j: nat)
    requires IsRun(vault, stores, ops) && stores[0] == NewStore(main) && i <= j <= |ops|
    ensures WellNumbered(stores[j])
    ensures forall k: nat :: SlotAt(stores[i].unified.UnwrapOr([]), k).Some? ==> SlotAt(stores[j].unified.UnwrapOr([]), k).Some?
    decreases j
  {
    hide WellNumbered, Performs, SlotAt;
    if j == 0 {
      NewStoreNumbered(main);
    } else {
      StoreStaysNumbered(vault, main, stores, ops, if i < j then i else j - 1, j - 1);
      OperationKeepsNumbering(vault, stores[j - 1], ops[j - 1], stores[j]);
    }
  }

  lemma NewStoreNumbered(main: Option<MainSeed>)
    ensures WellNumbered(NewStore(main))
  {
  }
}
