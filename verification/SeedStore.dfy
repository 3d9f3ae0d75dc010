/**
 The wallet's unified seed store: an array of numbered slots, possibly with holes, and the two legacy
 stores it is filled from. Calls do not overlap.
 */
module SeedStore {
  import opened Basics
  import opened SeedHash
  import Text

  /** What a save draws from outside: the salt and nonce of its encryption, and the time. */
  datatype Moment = Moment(entropy: nat, now: string)

  /** Encryption and password hashing. */
  datatype Vault = Vault(
    encrypt: (Phrase, string, Moment) -> Option<string>,
    decrypt: (string, string) -> Option<Phrase>,
    hashPassword: string -> string,
    hashPasswordLegacy: string -> string)
  {
    /** What was encrypted under a password is decrypted by it. */
    ghost predicate Sound() {
      forall phrase: Phrase, password: string, moment: Moment :: encrypt(phrase, password, moment).Some? ==>
        decrypt(encrypt(phrase, password, moment).value, password) == Some(phrase)
    }
  }

  /** `UnifiedSeed`. */
  datatype Seed = Seed(seedNumber: nat, encryptedMnemonic: string, seedHash: int, createdAt: string, passwordHash: string, isMain: bool,
                       labelText: Option<string>)

  type Slots = seq<Option<Seed>>

  datatype ImportedSeed = ImportedSeed(seedNumber: nat, encryptedMnemonic: string, seedHash: int, createdAt: string, passwordHash: string)

  /** The legacy main seed: encrypted, or the older plain-text form. */
  datatype MainSeed = Encrypted(encryptedMnemonic: string, passwordHash: string) | PlainText(mnemonic: Phrase)

  /** Each slot is empty or holds the seed with that slot's number. */
  predicate Numbered(slots: Slots) {
    forall i :: 0 <= i < |slots| && slots[i].Some? ==> slots[i].value.seedNumber == i
  }

  /** What is at a position, whether or not the array reaches it. */
  function SlotAt(slots: Slots, n: nat): Option<Seed> {
    if n < |slots| then slots[n] else None
  }

  predicate HasSeeds(slots: Slots) {
    exists i :: 0 <= i < |slots| && slots[i].Some?
  }

  // Loading.

  /** `seeds.find(s => s.seedNumber === n)`: reading a field of a hole before the match throws. */
  datatype FindResult = Found(seed: Seed) | Missing | Threw

  function Find(slots: Slots, n: nat): FindResult {
    if slots == [] then Missing
    else if slots[0].None? then Threw
    else if slots[0].value.seedNumber == n then Found(slots[0].value)
    else Find(slots[1..], n)
  }

  /** `loadUnifiedSeed`; a thrown error is caught and gives null. */
  function Load(vault: Vault, slots: Slots, n: nat, password: string): Option<Phrase> {
    match Find(slots, n)
    case Found(seed) =>
      if vault.hashPassword(password) != seed.passwordHash then None else vault.decrypt(seed.encryptedMnemonic, password)
    case _ => None
  }

  predicate FilledBelow(slots: Slots, n: nat) {
    n <= |slots| && forall i :: 0 <= i < n ==> slots[i].Some?
  }

  lemma {:induction false} FindFrom(slots: Slots, n: nat, start: nat)
    requires Numbered(slots) && start <= |slots|
    ensures Find(slots[start..], n) ==
            if start <= n < |slots| && forall i :: start <= i <= n ==> slots[i].Some? then Found(slots[n].value)
            else if forall i :: start <= i < |slots| ==> slots[i].Some? then Missing
            else Threw
    decreases |slots| - start
  {
    if start < |slots| {
      FindFrom(slots, n, start + 1);
      assert slots[start..][1..] == slots[start + 1..];
    }
  }

  /** In a numbered store a seed is found exactly when its slot and every lower slot are filled. */
  lemma FindExact(slots: Slots, n: nat)
    requires Numbered(slots)
    ensures Find(slots, n).Found? <==> SlotAt(slots, n).Some? && FilledBelow(slots, n)
    ensures Find(slots, n).Found? ==> Some(Find(slots, n).seed) == SlotAt(slots, n)
  {
    FindFrom(slots, n, 0);
    assert slots[0..] == slots;
  }

  /**
   A phrase is loaded exactly when the slot and every lower one are filled, the password has the hash
   stored with the seed, and decrypts it to that phrase.
   */
  lemma LoadIff(vault: Vault, slots: Slots, n: nat, password: string, phrase: Phrase)
    requires Numbered(slots)
    ensures Load(vault, slots, n, password) == Some(phrase) <==>
            FilledBelow(slots, n) && n < |slots| && slots[n].Some? &&
            slots[n].value.passwordHash == vault.hashPassword(password) &&
            vault.decrypt(slots[n].value.encryptedMnemonic, password) == Some(phrase)
  {
    FindExact(slots, n);
  }

  // Saving.

  function Padded(slots: Slots, n: nat): (r: Slots)
    ensures |r| == if |slots| <= n then n + 1 else |slots|
    ensures slots <= r && forall i :: |slots| <= i < |r| ==> r[i] == None
  {
    if |slots| <= n then slots + seq(n + 1 - |slots|, i => None) else slots
  }

  /** The array after a seed is stored at position `n`. */
  function Stored(slots: Slots, n: nat, seed: Seed): Slots {
    Padded(slots, n)[n := Some(seed)]
  }

  const MAIN_LABEL: Option<string> := Some("Main Seed")

  function ImportedLabel(n: nat): Option<string> {
    Some("Imported Seed " + Text.NatText(n))
  }

  function NewSeed(vault: Vault, n: nat, phrase: Phrase, password: string, isMain: bool, labelText: Option<string>, moment: Moment,
                   cipher: string): Seed
  {
    Seed(n, cipher, Hash(phrase), moment.now, vault.hashPassword(password), isMain, labelText)
  }

  /** Storing changes exactly one position, and keeps the slots numbered. */
  lemma StoredSpec(slots: Slots, n: nat, seed: Seed)
    ensures forall i: nat :: SlotAt(Stored(slots, n, seed), i) == if i == n then Some(seed) else SlotAt(slots, i)
    ensures Numbered(slots) && seed.seedNumber == n ==> Numbered(Stored(slots, n, seed))
    ensures FilledBelow(Stored(slots, n, seed), n) <==> forall i :: 0 <= i < n ==> SlotAt(slots, i).Some?
  {
    var after := Stored(slots, n, seed);
    forall i | 0 <= i < n ensures after[i].Some? <==> SlotAt(slots, i).Some? {
      assert after[i] == SlotAt(slots, i);
    }
  }

  /** Saving then loading returns the phrase exactly when no lower slot is empty; otherwise null. */
  lemma SaveThenLoad(vault: Vault, slots: Slots, n: nat, phrase: Phrase, password: string, isMain: bool,
                     labelText: Option<string>, moment: Moment)
    requires vault.Sound() && Numbered(slots) && vault.encrypt(phrase, password, moment).Some?
    ensures var seed := NewSeed(vault, n, phrase, password, isMain, labelText, moment, vault.encrypt(phrase, password, moment).value);
            Load(vault, Stored(slots, n, seed), n, password) ==
            if forall i: nat :: i < n ==> SlotAt(slots, i).Some? then Some(phrase) else None
  {
    var seed := NewSeed(vault, n, phrase, password, isMain, labelText, moment, vault.encrypt(phrase, password, moment).value);
    StoredSpec(slots, n, seed);
    FindExact(Stored(slots, n, seed), n);
  }

  /** Saving elsewhere does not disturb a seed that could be loaded. */
  lemma SaveKeepsOthers(vault: Vault, slots: Slots, n: nat, seed: Seed, other: nat, password: string)
    requires Numbered(slots) && seed.seedNumber == n && other != n && Load(vault, slots, other, password).Some?
    ensures Load(vault, Stored(slots, n, seed), other, password) == Load(vault, slots, other, password)
  {
    StoredSpec(slots, n, seed);
    FindExact(slots, other);
    FindExact(Stored(slots, n, seed), other);
    forall i | 0 <= i < other ensures Stored(slots, n, seed)[i].Some? {
      assert SlotAt(Stored(slots, n, seed), i).Some?;
    }
  }

  // Assignment.

  /** The first stored seed with a hash. */
  function FindHash(slots: Slots, hash: int): (r: Option<nat>)
    ensures r.None? <==> forall i :: 0 <= i < |slots| && slots[i].Some? ==> slots[i].value.seedHash != hash
  {
    if slots == [] then None
    else if slots[0].Some? && slots[0].value.seedHash == hash then Some(slots[0].value.seedNumber)
    else
      var r := FindHash(slots[1..], hash);
      assert forall i :: 1 <= i < |slots| ==> slots[i] == slots[1..][i - 1];
      r
  }

  /** The smallest free position from `from` on. */
  function NextFree(slots: Slots, from: nat): (n: nat)
    ensures n >= from && SlotAt(slots, n).None?
    ensures forall i: nat :: from <= i < n ==> SlotAt(slots, i).Some?
    decreases |slots| - from
  {
    if from < |slots| && slots[from].Some? then NextFree(slots, from + 1) else from
  }

  datatype Assignment = Assignment(slots: Slots, number: Option<nat>)

  /** `getOrAssignSeedNumber` on an existing store; no number is a thrown error. */
  function Assign(vault: Vault, slots: Slots, phrase: Phrase, password: string, moment: Moment): Assignment {
    var known := FindHash(slots, Hash(phrase));
    if known.Some? then Assignment(slots, known) else
      var n := NextFree(slots, 1);
      var cipher := vault.encrypt(phrase, password, moment);
      if cipher.None? then Assignment(slots, None)
      else Assignment(Stored(slots, n, NewSeed(vault, n, phrase, password, false, ImportedLabel(n), moment, cipher.value)), Some(n))
  }

  lemma {:induction false} FindHashAt(slots: Slots, hash: int, start: nat)
    requires Numbered(slots) && start <= |slots|
    ensures FindHash(slots[start..], hash).Some? ==>
              var n := FindHash(slots[start..], hash).value;
              start <= n < |slots| && slots[n].Some? && slots[n].value.seedHash == hash &&
              forall i :: start <= i < n && slots[i].Some? ==> slots[i].value.seedHash != hash
    decreases |slots| - start
  {
    if start < |slots| {
      FindHashAt(slots, hash, start + 1);
      assert slots[start..][1..] == slots[start + 1..];
    }
  }

  /**
   Assignment never overwrites or moves a seed: either the phrase's hash is already stored and nothing
   changes, or the seed goes to the smallest free slot from 1 on and every other slot stays as it was.
   */
  lemma AssignSpec(vault: Vault, slots: Slots, phrase: Phrase, password: string, moment: Moment)
    requires Numbered(slots)
    ensures var a := Assign(vault, slots, phrase, password, moment);
            Numbered(a.slots) &&
            (forall i: nat :: SlotAt(slots, i).Some? ==> SlotAt(a.slots, i) == SlotAt(slots, i)) &&
            (a.number.Some? ==>
               var n := a.number.value;
               SlotAt(a.slots, n).Some? && SlotAt(a.slots, n).value.seedHash == Hash(phrase) &&
               (a.slots != slots ==>
                  n >= 1 && SlotAt(slots, n).None? && (forall i: nat :: 1 <= i < n ==> SlotAt(slots, i).Some?) &&
                  forall i: nat :: i != n ==> SlotAt(a.slots, i) == SlotAt(slots, i))) &&
            (a.number.None? ==> a.slots == slots)
  {
    var known := FindHash(slots, Hash(phrase));
    if known.Some? {
      FindHashAt(slots, Hash(phrase), 0);
      assert slots[0..] == slots;
    } else {
      var n := NextFree(slots, 1);
      var cipher := vault.encrypt(phrase, password, moment);
      if cipher.Some? {
        StoredSpec(slots, n, NewSeed(vault, n, phrase, password, false, ImportedLabel(n), moment, cipher.value));
      }
    }
  }

  /** Asking again for the same phrase gives the same number and changes nothing. */
  lemma AssignIdempotent(vault: Vault, slots: Slots, phrase: Phrase, password: string, moment: Moment,
                         otherPassword: string, otherMoment: Moment)
    requires Numbered(slots) && Assign(vault, slots, phrase, password, moment).number.Some?
    ensures var a := Assign(vault, slots, phrase, password, moment);
            Assign(vault, a.slots, phrase, otherPassword, otherMoment) == a
  {
    var a := Assign(vault, slots, phrase, password, moment);
    AssignSpec(vault, slots, phrase, password, moment);
    var n := a.number.value;
    assert a.slots[n].value.seedHash == Hash(phrase);
    assert FindHash(a.slots, Hash(phrase)).Some?;
    FindHashAt(a.slots, Hash(phrase), 0);
    assert a.slots[0..] == a.slots;
    if FindHash(slots, Hash(phrase)).None? {
      var m := FindHash(a.slots, Hash(phrase)).value;
      assert m != n ==> SlotAt(a.slots, m) == SlotAt(slots, m);
    }
  }

  /** Two phrases whose hashes collide share the first one's slot, and the second is not stored. */
  lemma CollidingPhraseNotStored(vault: Vault, slots: Slots, first: Phrase, second: Phrase, password: string, e1: Moment, e2: Moment)
    requires Numbered(slots) && Hash(first) == Hash(second) && Assign(vault, slots, first, password, e1).number.Some?
    ensures var a := Assign(vault, slots, first, password, e1); Assign(vault, a.slots, second, password, e2) == a
  {
    AssignIdempotent(vault, slots, first, password, e1, password, e2);
  }

  /** A phrase gets a slot of its own exactly when no stored seed has its hash. */
  lemma StoredAnewIff(vault: Vault, slots: Slots, phrase: Phrase, password: string, moment: Moment)
    requires vault.encrypt(phrase, password, moment).Some?
    ensures Assign(vault, slots, phrase, password, moment).slots != slots <==>
            forall i :: 0 <= i < |slots| && slots[i].Some? ==> slots[i].value.seedHash != Hash(phrase)
  {
    var n := NextFree(slots, 1);
    var seed := NewSeed(vault, n, phrase, password, false, ImportedLabel(n), moment, vault.encrypt(phrase, password, moment).value);
    StoredSpec(slots, n, seed);
    assert SlotAt(Stored(slots, n, seed), n) != SlotAt(slots, n);
  }

  // The legacy stores.

  datatype Imported = Imported(seeds: map<nat, ImportedSeed>, nextSeedNumber: nat) {
    /** Numbers start at 1, are below the next one, and match their keys. */
    predicate Valid() {
      nextSeedNumber >= 1 && forall k :: k in seeds ==> 1 <= k < nextSeedNumber && seeds[k].seedNumber == k
    }
  }

  /** `loadImportedSeed`. */
  function LoadImported(vault: Vault, imported: Imported, n: nat, password: string): Option<Phrase> {
    if n !in imported.seeds || vault.hashPasswordLegacy(password) != imported.seeds[n].passwordHash then None
    else vault.decrypt(imported.seeds[n].encryptedMnemonic, password)
  }

  /** The phrase `loadWalletData` yields, if there is one. */
  function LoadMain(vault: Vault, main: Option<MainSeed>, password: string): Option<Phrase> {
    var m :- main;
    match m
    case PlainText(mnemonic) => if mnemonic == [] then None else Some(mnemonic)
    case Encrypted(cipher, passwordHash) =>
      if password == "" || vault.hashPassword(password) != passwordHash then None else
        var phrase :- vault.decrypt(cipher, password);
        if phrase == [] then None else Some(phrase)
  }

  /** What migration puts at a position: the main seed at 0, imported seed k at k, nothing elsewhere. */
  function MigratedSlot(vault: Vault, main: Option<MainSeed>, imported: Imported, password: string, moments: nat -> Moment, k: nat): Option<Seed> {
    var phrase :- if k == 0 then LoadMain(vault, main, password) else ImportedPhrase(vault, imported, k, password);
    var cipher :- vault.encrypt(phrase, password, moments(k));
    Some(NewSeed(vault, k, phrase, password, k == 0, if k == 0 then MAIN_LABEL else ImportedLabel(k), moments(k), cipher))
  }

  /** An imported phrase, when it can be read and is not empty. */
  function ImportedPhrase(vault: Vault, imported: Imported, k: nat, password: string): Option<Phrase> {
    var phrase :- LoadImported(vault, imported, k, password);
    if phrase == [] then None else Some(phrase)
  }

  /**
   What is migrated to a slot: the main phrase as it stands or decrypted under its own password, to slot
   0; an imported phrase decrypted under its own password, to its number; and only if it is not empty.
   */
  lemma MigratedIff(vault: Vault, main: Option<MainSeed>, imported: Imported, password: string, moments: nat -> Moment, k: nat, seed: Seed)
    ensures MigratedSlot(vault, main, imported, password, moments, k) == Some(seed) <==>
            exists phrase :: phrase != [] && LegacyHolds(vault, main, imported, password, k, phrase) &&
              vault.encrypt(phrase, password, moments(k)).Some? &&
              seed == Seed(k, vault.encrypt(phrase, password, moments(k)).value, Hash(phrase), moments(k).now,
                           vault.hashPassword(password), k == 0, if k == 0 then Some("Main Seed") else Some("Imported Seed " + Text.NatText(k)))
  {
    hide Hash;
    var phrase := if k == 0 then LoadMain(vault, main, password) else ImportedPhrase(vault, imported, k, password);
    if phrase.Some? {
      assert LegacyHolds(vault, main, imported, password, k, phrase.value);
    }
  }

  /** The legacy stores hold this phrase under this number and password. */
  predicate LegacyHolds(vault: Vault, main: Option<MainSeed>, imported: Imported, password: string, k: nat, phrase: Phrase) {
    if k == 0 then
      match main
      case None => false
      case Some(PlainText(mnemonic)) => mnemonic == phrase
      case Some(Encrypted(cipher, hash)) =>
        password != "" && vault.hashPassword(password) == hash && vault.decrypt(cipher, password) == Some(phrase)
    else
      k in imported.seeds && vault.hashPasswordLegacy(password) == imported.seeds[k].passwordHash &&
      vault.decrypt(imported.seeds[k].encryptedMnemonic, password) == Some(phrase)
  }

  // The manager.

  /** Everything the manager stores. */
  datatype Store = Store(unified: Option<Slots>, imported: Imported, main: Option<MainSeed>)

  function NewStore(main: Option<MainSeed>): Store {
    Store(None, Imported(map[], 1), main)
  }

  datatype Operation =
    | SaveSeed(number: nat, phrase: Phrase, password: string, isMain: bool, labelText: Option<string>, moment: Moment)
    | AssignSeed(phrase: Phrase, password: string, moment: Moment)
    | ImportSeed(phrase: Phrase)
    | Migrate(password: string, moments: nat -> Moment)

  /** What one operation does to everything stored. */
  ghost predicate Performs(vault: Vault, s: Store, op: Operation, t: Store) {
    var slots := s.unified.UnwrapOr([]);
    t.main == s.main &&
    match op
    case SaveSeed(n, phrase, password, isMain, labelText, moment) =>
      var cipher := vault.encrypt(phrase, password, moment);
      t.imported == s.imported &&
      t.unified == if cipher.None? then s.unified
                   else Some(Stored(slots, n, NewSeed(vault, n, phrase, password, isMain, labelText, moment, cipher.value)))
    case AssignSeed(phrase, password, moment) =>
      t.imported == s.imported &&
      t.unified == if s.unified.None? then None else Some(Assign(vault, slots, phrase, password, moment).slots)
    case ImportSeed(phrase) =>
      t.unified == s.unified && (s.imported.Valid() ==> t.imported.Valid())
    case Migrate(password, moments) =>
      t.imported == s.imported &&
      if HasSeeds(slots) then t.unified == s.unified
      else forall k: nat :: SlotAt(t.unified.UnwrapOr([]), k) == MigratedSlot(vault, s.main, s.imported, password, moments, k)
  }

  class SeedManager {
    const vault: Vault
    /** The stored unified array; absent before the first save. */
    var unified: Option<Slots>
    var imported: Imported
    var main: Option<MainSeed>

    constructor (vault: Vault, main: Option<MainSeed>)
      ensures this.vault == vault && View() == NewStore(main)
    {
      this.vault, this.main := vault, main;
      unified, imported := None, Imported(map[], 1);
    }

    function Slots(): Slots
      reads this
    {
      unified.UnwrapOr([])
    }

    ghost function View(): Store
      reads this
    {
      Store(unified, imported, main)
    }

    method LoadUnifiedSeed(seedNumber: nat, password: string) returns (r: Option<Phrase>)
      ensures r == Load(vault, Slots(), seedNumber, password)
    {
      var seeds := Slots();
      for i := 0 to |seeds|
        invariant Find(seeds, seedNumber) == Find(seeds[i..], seedNumber)
      {
        assert seeds[i..][1..] == seeds[i + 1..];
        if seeds[i].None? {
          return None;
        }
        var seed := seeds[i].value;
        if seed.seedNumber == seedNumber {
          if vault.hashPassword(password) != seed.passwordHash {
            return None;
          }
          return vault.decrypt(seed.encryptedMnemonic, password);
        }
      }
      return None;
    }

    method SaveUnifiedSeed(seedNumber: nat, seedPhrase: Phrase, password: string, isMain: bool, labelText: Option<string>,
                           moment: Moment)
      returns (ok: bool)
      modifies this`unified
      ensures var cipher := vault.encrypt(seedPhrase, password, moment);
              ok == cipher.Some? &&
              unified == if ok then Some(Stored(old(Slots()), seedNumber,
                                                NewSeed(vault, seedNumber, seedPhrase, password, isMain, labelText, moment, cipher.value)))
                         else old(unified)
      ensures Performs(vault, old(View()), SaveSeed(seedNumber, seedPhrase, password, isMain, labelText, moment), View())
    {
      var seedHash := HashSeedPhrase(seedPhrase);
      var passwordHash := vault.hashPassword(password);
      var cipher := vault.encrypt(seedPhrase, password, moment);
      if cipher.None? {
        return false;
      }
      var seeds := Slots();
      while |seeds| <= seedNumber
        invariant |old(Slots())| <= |seeds|
        invariant |seeds| <= if |old(Slots())| <= seedNumber then seedNumber + 1 else |old(Slots())|
        invariant old(Slots()) <= seeds && forall i :: |old(Slots())| <= i < |seeds| ==> seeds[i] == None
        decreases seedNumber + 1 - |seeds|
      {
        seeds := seeds + [None];
      }
      assert seeds == Padded(old(Slots()), seedNumber);
      seeds := seeds[seedNumber := Some(Seed(seedNumber, cipher.value, seedHash, moment.now, passwordHash, isMain, labelText))];
      unified := Some(seeds);
      return true;
    }

    /** No number is a thrown error. */
    method GetOrAssignSeedNumber(seedPhrase: Phrase, password: string, moment: Moment) returns (number: Option<nat>)
      modifies this`unified
      ensures old(unified).None? ==> number == None && unified == None
      ensures old(unified).Some? ==>
                unified == Some(Assign(vault, old(Slots()), seedPhrase, password, moment).slots) &&
                number == Assign(vault, old(Slots()), seedPhrase, password, moment).number
      ensures Performs(vault, old(View()), AssignSeed(seedPhrase, password, moment), View())
    {
      var seedHash := HashSeedPhrase(seedPhrase);
      if unified.None? {
        return None;
      }
      var seeds := Slots();
      for i := 0 to |seeds|
        invariant FindHash(seeds, seedHash) == FindHash(seeds[i..], seedHash)
      {
        assert seeds[i..][1..] == seeds[i + 1..];
        if seeds[i].Some? && seeds[i].value.seedHash == seedHash {
          return Some(seeds[i].value.seedNumber);
        }
      }
      assert FindHash(seeds, seedHash).None?;
      var nextSeedNumber: nat := 1;
      while nextSeedNumber < |seeds| && seeds[nextSeedNumber].Some?
        invariant NextFree(seeds, 1) == NextFree(seeds, nextSeedNumber)
      {
        nextSeedNumber := nextSeedNumber + 1;
      }
      var ok := SaveUnifiedSeed(nextSeedNumber, seedPhrase, password, false, ImportedLabel(nextSeedNumber), moment);
      if ok {
        return Some(nextSeedNumber);
      }
      return None;
    }

    /** `saveImportedSeed`: a phrase already imported keeps its number, a new one takes the next. */
    method SaveImportedSeed(seedPhrase: Phrase, password: string, moment: Moment) returns (number: Option<nat>)
      requires imported.Valid()
      modifies this`imported
      ensures imported.Valid()
      ensures forall k :: k in old(imported).seeds ==> k in imported.seeds && imported.seeds[k] == old(imported).seeds[k]
      ensures number.Some? ==> number.value in imported.seeds && imported.seeds[number.value].seedHash == Hash(seedPhrase)
      ensures number.None? ==> imported == old(imported)
      ensures imported != old(imported) ==>
                number == Some(old(imported).nextSeedNumber) && imported.seeds.Keys == old(imported).seeds.Keys + {number.value} &&
                forall k :: k in old(imported).seeds ==> old(imported).seeds[k].seedHash != Hash(seedPhrase)
      ensures vault.Sound() && imported != old(imported) ==> LoadImported(vault, imported, number.value, password) == Some(seedPhrase)
      ensures Performs(vault, old(View()), ImportSeed(seedPhrase), View())
    {
      var seedHash := HashSeedPhrase(seedPhrase);
      for k := 0 to imported.nextSeedNumber
        invariant forall j :: j in imported.seeds && j < k ==> imported.seeds[j].seedHash != seedHash
      {
        if k in imported.seeds && imported.seeds[k].seedHash == seedHash {
          return Some(k);
        }
      }
      var seedNumber := imported.nextSeedNumber;
      var cipher := vault.encrypt(seedPhrase, password, moment);
      if cipher.None? {
        return None;
      }
      var seed := ImportedSeed(seedNumber, cipher.value, seedHash, moment.now, vault.hashPasswordLegacy(password));
      imported := Imported(imported.seeds[seedNumber := seed], seedNumber + 1);
      return Some(seedNumber);
    }

    /** One step of the migration: a save, seen slot by slot. */
    method MigrateSeed(n: nat, phrase: Phrase, password: string, isMain: bool, labelText: Option<string>, moment: Moment)
      returns (success: bool)
      modifies this`unified
      ensures var cipher := vault.encrypt(phrase, password, moment);
              success == cipher.Some? &&
              (forall i: nat :: SlotAt(Slots(), i) ==
                 if success && i == n then Some(NewSeed(vault, n, phrase, password, isMain, labelText, moment, cipher.value))
                 else SlotAt(old(Slots()), i)) &&
              (HasSeeds(Slots()) <==> success || HasSeeds(old(Slots())))
    {
      hide NewSeed, Stored;
      success := SaveUnifiedSeed(n, phrase, password, isMain, labelText, moment);
      if success {
        MigratedOne(old(Slots()), n,
                    NewSeed(vault, n, phrase, password, isMain, labelText, moment, vault.encrypt(phrase, password, moment).value));
      }
    }

    /**
     `migrateToUnifiedStorage`. With seeds already stored it does nothing. Otherwise every slot ends up
     as `MigratedSlot` says. The result tells whether seeds are stored, so a run after one that
     returned true changes nothing.
     */
    method MigrateToUnifiedStorage(password: string, moments: nat -> Moment) returns (ok: bool)
      requires imported.Valid()
      modifies this`unified
      ensures ok <==> HasSeeds(Slots())
      ensures HasSeeds(old(Slots())) ==> unified == old(unified)
      ensures !HasSeeds(old(Slots())) ==>
                forall k: nat :: SlotAt(Slots(), k) == MigratedSlot(vault, main, imported, password, moments, k)
      ensures Performs(vault, old(View()), Operation.Migrate(password, moments), View())
    {
      if HasSeeds(Slots()) {
        return true;
      }
      hide MigratedSlot, LoadMain, LoadImported, NewSeed, Stored, Assign, Find, Numbered;
      var migratedCount: nat := 0;
      MainSlot(vault, main, imported, password, moments);
      var mainPhrase := LoadMain(vault, main, password);
      if mainPhrase.Some? {
        var success := MigrateSeed(0, mainPhrase.value, password, true, MAIN_LABEL, moments(0));
        if success {
          migratedCount := migratedCount + 1;
        }
      }
      for k := 1 to imported.nextSeedNumber
        invariant forall i: nat :: SlotAt(Slots(), i) == if i < k then MigratedSlot(vault, main, imported, password, moments, i) else None
        invariant migratedCount > 0 <==> HasSeeds(Slots())
      {
        ImportedSlot(vault, main, imported, password, moments, k);
        if k in imported.seeds {
          var phrase := LoadImported(vault, imported, k, password);
          if phrase.Some? && phrase.value != [] {
            var success := MigrateSeed(k, phrase.value, password, false, ImportedLabel(k), moments(k));
            if success {
              migratedCount := migratedCount + 1;
            }
          }
        }
      }
      forall k: nat | k >= imported.nextSeedNumber ensures MigratedSlot(vault, main, imported, password, moments, k).None? {
        ImportedSlot(vault, main, imported, password, moments, k);
      }
      return migratedCount > 0;
    }
  }

  lemma MigratedOne(slots: Slots, n: nat, seed: Seed)
    ensures HasSeeds(Stored(slots, n, seed))
    ensures forall i: nat :: SlotAt(Stored(slots, n, seed), i) == if i == n then Some(seed) else SlotAt(slots, i)
  {
    StoredSpec(slots, n, seed);
    assert Stored(slots, n, seed)[n].Some?;
  }

  lemma MainSlot(vault: Vault, main: Option<MainSeed>, imported: Imported, password: string, moments: nat -> Moment)
    ensures MigratedSlot(vault, main, imported, password, moments, 0) ==
            match LoadMain(vault, main, password)
            case None => None
            case Some(phrase) =>
              var cipher := vault.encrypt(phrase, password, moments(0));
              if cipher.None? then None else Some(NewSeed(vault, 0, phrase, password, true, MAIN_LABEL, moments(0), cipher.value))
  {
  }

  lemma ImportedSlot(vault: Vault, main: Option<MainSeed>, imported: Imported, password: string, moments: nat -> Moment, k: nat)
    requires k >= 1
    ensures MigratedSlot(vault, main, imported, password, moments, k) ==
            match ImportedPhrase(vault, imported, k, password)
            case None => None
            case Some(phrase) =>
              var cipher := vault.encrypt(phrase, password, moments(k));
              if cipher.None? then None else Some(NewSeed(vault, k, phrase, password, false, ImportedLabel(k), moments(k), cipher.value))
  {
  }

  /** A migrated store is numbered, and loads seed k exactly when every position up to k was migrated. */
  lemma MigratedLoads(vault: Vault, main: Option<MainSeed>, imported: Imported, password: string, moments: nat -> Moment,
                      slots: Slots, k: nat)
    requires vault.Sound()
    requires forall i: nat :: SlotAt(slots, i) == MigratedSlot(vault, main, imported, password, moments, i)
    ensures Numbered(slots)
    ensures Load(vault, slots, k, password) ==
            if forall i: nat :: i <= k ==> MigratedSlot(vault, main, imported, password, moments, i).Some?
            then (if k == 0 then LoadMain(vault, main, password) else ImportedPhrase(vault, imported, k, password)) else None
  {
    hide LoadMain, ImportedPhrase;
    forall i | 0 <= i < |slots| && slots[i].Some? ensures slots[i].value.seedNumber == i {
      assert SlotAt(slots, i) == slots[i];
    }
    FindExact(slots, k);
    if FilledBelow(slots, k) && SlotAt(slots, k).Some? {
      assert forall i: nat :: i <= k ==> SlotAt(slots, i).Some?;
    } else if !FilledBelow(slots, k) {
      if k <= |slots| {
        var i :| 0 <= i < k && slots[i].None?;
        assert SlotAt(slots, i).None?;
      } else {
        assert SlotAt(slots, |slots|).None?;
      }
    }
  }

  /** Without a main seed the migrated imports occupy their slots, but none of them can be loaded. */
  lemma NothingLoadsWithoutMain(vault: Vault, main: Option<MainSeed>, imported: Imported, password: string,
                                moments: nat -> Moment, slots: Slots, k: nat)
    requires vault.Sound() && LoadMain(vault, main, password).None?
    requires forall i: nat :: SlotAt(slots, i) == MigratedSlot(vault, main, imported, password, moments, i)
    ensures Load(vault, slots, k, password) == None
  {
    MigratedLoads(vault, main, imported, password, moments, slots, k);
    assert MigratedSlot(vault, main, imported, password, moments, 0).None?;
  }
}
