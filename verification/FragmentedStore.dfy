/**
 Stores of 3, 5, 6 and 7 bytes to the stack, one fragment after another.

 A fragment is shifted down into one scratch register, and a stack address that cannot be encoded is
 formed in another. When the source is itself a scratch register, the address takes its place. Then the
 third fragment, which only 7 bytes have, is shifted out of the address.
 */
module FragmentedStore {
  import opened Results
  import opened ByteRanges
  import opened NocterAbi
  import opened Transport

  /// What a store from a register may change.
  function Spoiled(source: nat): set<nat> {
    if source in SCRATCH then SCRATCH + {0} else SCRATCH
  }

  /// What becomes of the source at one fragment.
  function SourceAfter(m: Machine, source: nat, address: nat, done: nat, width: nat): Word
    requires width > 0 && m.sp <= address
  {
    if source in SCRATCH && done > 0 && !StackEncodable(address + done - m.sp, width) then PointerWord(address + done)
    else General(m, source)
  }

  /// One fragment stores its bytes of the source as the source then is.
  lemma FragmentIsStored(m: Machine, source: nat, address: nat, done: nat, width: nat)
    requires done + width <= 8 && 0 < width && address + done + width <= |m.memory| && m.sp <= address
    ensures var n := StoreFragment(m, source, address, done, width);
            && n.memory == Splice(m.memory, address + done, General(m, source)[done..done + width])
            && n.sp == m.sp && n.clock == m.clock && n.floats == m.floats
            && General(n, source) == SourceAfter(m, source, address, done, width)
            && (forall r: nat | r !in SCRATCH && (r != 0 || source !in SCRATCH) :: General(n, r) == General(m, r))
  {
    hide PointerWord, Splice, StackEncodable;
    var w := General(m, source);
    assert ShiftedRight(w, done)[..width] == w[done..done + width];
  }

  lemma FragmentChanges(m: Machine, source: nat, address: nat, done: nat, width: nat)
    requires done + width <= 8 && 0 < width && address + done + width <= |m.memory| && m.sp <= address
    ensures Changes(m, StoreFragment(m, source, address, done, width), Spoiled(source),
                    FLOAT_SCRATCH, address + done, address + done + width)
  {
    hide StoreFragment, General, SourceAfter;
    FragmentIsStored(m, source, address, done, width);
    SameFloats(m, StoreFragment(m, source, address, done, width));
  }

  lemma SameFloats(m: Machine, n: Machine)
    requires n.floats == m.floats
    ensures forall r: nat :: FloatRegister(n, r) == FloatRegister(m, r)
  {
  }

  lemma {:induction false} FragmentsChange(m: Machine, source: nat, address: nat, done: nat, bytes: nat)
    requires done <= bytes <= 8 && address + bytes <= |m.memory| && m.sp <= address
    ensures Changes(m, StoreFragments(m, source, address, done, bytes), Spoiled(source),
                    FLOAT_SCRATCH, address + done, address + bytes)
    decreases bytes - done
  {
    hide General, FloatRegister, StoreFragment, Changes;
    var general := Spoiled(source);
    if done == bytes {
      NoChanges(m, general, address + done, address + bytes);
    } else {
      var width := FragmentWidth(bytes - done);
      FragmentIsStored(m, source, address, done, width);
      FragmentChanges(m, source, address, done, width);
      var n := StoreFragment(m, source, address, done, width);
      FragmentsChange(n, source, address, done + width, bytes);
      ChangesJoin(m, n, StoreFragments(n, source, address, done + width, bytes), general, address + done, address + bytes,
                  address + done, address + done + width, address + done + width, address + bytes);
    }
  }

  /// From any other register every byte arrives.
  lemma {:induction false} OtherSourceIsStored(m: Machine, source: nat, address: nat, done: nat, bytes: nat)
    requires done <= bytes <= 8 && address + bytes <= |m.memory| && m.sp <= address && source !in SCRATCH
    ensures StoreFragments(m, source, address, done, bytes).memory == Splice(m.memory, address + done, General(m, source)[done..bytes])
    decreases bytes - done
  {
    hide General, StoreFragment, Splice;
    if done == bytes {
      assert General(m, source)[done..bytes] == [];
      SpliceNothing(m.memory, address + done);
    } else {
      var width := FragmentWidth(bytes - done);
      FragmentIsStored(m, source, address, done, width);
      OtherSourceIsStored(StoreFragment(m, source, address, done, width), source, address, done + width, bytes);
      SplicesJoin(m.memory, address + done, General(m, source)[done..done + width], General(m, source)[done + width..bytes]);
      assert General(m, source)[done..done + width] + General(m, source)[done + width..bytes] == General(m, source)[done..bytes];
    }
  }

  lemma SpliceNothing(h: Bytes, offset: nat)
    requires offset <= |h|
    ensures Splice(h, offset, []) == h
  {
  }

  lemma SplicesJoin(h: Bytes, offset: nat, a: Bytes, b: Bytes)
    requires offset + |a| + |b| <= |h|
    ensures Splice(Splice(h, offset, a), offset + |a|, b) == Splice(h, offset, a + b)
  {
  }

  // ---------------------------------------------------------------- scratch sources

  /// The last of seven bytes is lost when the address before it cannot be encoded.
  predicate Loses(source: nat, address: nat, sp: nat, bytes: nat)
    requires sp <= address
  {
    bytes == 7 && source in SCRATCH && !StackEncodable(address + 4 - sp, 2)
  }

  /// What the store leaves in memory.
  function Kept(m: Machine, source: nat, address: nat, bytes: nat): (r: Bytes)
    requires bytes <= 8 && m.sp <= address
    ensures |r| == bytes
  {
    if Loses(source, address, m.sp, bytes) then General(m, source)[..6] + [PointerWord(address + 4)[6]] else General(m, source)[..bytes]
  }

  predicate Fragmented(bytes: nat) {
    bytes == 3 || bytes == 5 || bytes == 6 || bytes == 7
  }

  lemma FragmentsUnfold(m: Machine, source: nat, address: nat, done: nat, bytes: nat)
    requires done < bytes <= 8 && address + bytes <= |m.memory| && m.sp <= address
    ensures var width := FragmentWidth(bytes - done);
            StoreFragments(m, source, address, done, bytes)
            == StoreFragments(StoreFragment(m, source, address, done, width), source, address, done + width, bytes)
  {
  }

  /// Two fragments: an address formed for the second one is not in the way.
  lemma TwoFragments(m: Machine, source: nat, address: nat, bytes: nat)
    requires bytes == 3 || bytes == 5 || bytes == 6
    requires address + bytes <= |m.memory| && m.sp <= address
    ensures StoreFragments(m, source, address, 0, bytes).memory == Splice(m.memory, address, General(m, source)[..bytes])
  {
    hide General, StoreFragment, StoreFragments, Splice, StackEncodable;
    var first := FragmentWidth(bytes);
    FragmentIsStored(m, source, address, 0, first);
    var n := StoreFragment(m, source, address, 0, first);
    FragmentIsStored(n, source, address, first, bytes - first);
    var q := StoreFragment(n, source, address, first, bytes - first);
    FragmentsUnfold(m, source, address, 0, bytes);
    FragmentsUnfold(n, source, address, first, bytes);
    NoFragments(q, source, address, bytes);
    SplicesJoin(m.memory, address, General(m, source)[..first], General(m, source)[first..bytes]);
    assert General(m, source)[..first] + General(m, source)[first..bytes] == General(m, source)[..bytes];
  }

  lemma NoFragments(m: Machine, source: nat, address: nat, bytes: nat)
    requires bytes <= 8 && address + bytes <= |m.memory| && m.sp <= address
    ensures StoreFragments(m, source, address, bytes, bytes) == m
  {
  }

  /// Three fragments: the third is shifted out of what the second left.
  lemma ThreeFragments(m: Machine, source: nat, address: nat)
    requires address + 7 <= |m.memory| && m.sp <= address
    ensures StoreFragments(m, source, address, 0, 7).memory == Splice(m.memory, address, Kept(m, source, address, 7))
  {
    hide General, StoreFragment, StoreFragments, Splice, StackEncodable, PointerWord;
    FragmentIsStored(m, source, address, 0, 4);
    var n := StoreFragment(m, source, address, 0, 4);
    FragmentIsStored(n, source, address, 4, 2);
    var q := StoreFragment(n, source, address, 4, 2);
    FragmentIsStored(q, source, address, 6, 1);
    var last := StoreFragment(q, source, address, 6, 1);
    FragmentsUnfold(m, source, address, 0, 7);
    FragmentsUnfold(n, source, address, 4, 7);
    FragmentsUnfold(q, source, address, 6, 7);
    NoFragments(last, source, address, 7);
    var v, u := General(m, source), General(q, source);
    SplicesJoin(m.memory, address, v[..4], v[4..6]);
    assert v[..4] + v[4..6] == v[..6];
    SplicesJoin(m.memory, address, v[..6], u[6..7]);
    assert v[..6] + u[6..7] == Kept(m, source, address, 7);
  }

  /// A store in fragments leaves its bytes in memory, except for a seventh byte that is lost.
  lemma FragmentsKeep(m: Machine, source: nat, address: nat, bytes: nat)
    requires Fragmented(bytes) && address + bytes <= |m.memory| && m.sp <= address
    ensures StoreFragments(m, source, address, 0, bytes).memory == Splice(m.memory, address, Kept(m, source, address, bytes))
  {
    if bytes == 7 {
      ThreeFragments(m, source, address);
    } else {
      TwoFragments(m, source, address, bytes);
    }
  }

  /// Whatever the register holds, the store is exact if and only if the width is not 7, or the source
  /// is not a scratch register, or the address behind the first four bytes can be encoded for a half.
  lemma FragmentedStoreIsExact(m: Machine, source: nat, address: nat, bytes: nat)
    requires Fragmented(bytes) && address + bytes <= |m.memory| && m.sp <= address
    ensures (forall w: Word :: Exact(m, source, address, bytes, w)) <==> !Loses(source, address, m.sp, bytes)
  {
    forall w: Word | !Loses(source, address, m.sp, bytes) ensures Exact(m, source, address, bytes, w) {
      KeptTells(m, source, address, bytes, w);
    }
    if Loses(source, address, m.sp, bytes) {
      var w: Word := if PointerWord(address + 4)[6] == 0 then [0, 0, 0, 0, 0, 0, 1, 0] else ZERO_WORD;
      KeptTells(m, source, address, bytes, w);
      assert !Exact(m, source, address, bytes, w);
    }
  }

  /// The store of the low bytes of `w` from a register.
  predicate Exact(m: Machine, source: nat, address: nat, bytes: nat, w: Word)
    requires bytes <= 8 && address + bytes <= |m.memory| && m.sp <= address
  {
    MemoryHolds(StoreFragments(SetGeneral(m, source, w), source, address, 0, bytes), address, w[..bytes])
  }

  /// For one value: the lost byte may happen to be the byte of the address.
  lemma KeptTells(m: Machine, source: nat, address: nat, bytes: nat, w: Word)
    requires Fragmented(bytes) && address + bytes <= |m.memory| && m.sp <= address
    ensures Exact(m, source, address, bytes, w) <==>
            !Loses(source, address, m.sp, bytes) || w[6] == PointerWord(address + 4)[6]
  {
    hide StoreFragments, PointerWord, Splice, Loses, Kept;
    var n := SetGeneral(m, source, w);
    KeptIsHeld(n, source, address, bytes);
    KeptIsWhole(n, source, address, bytes);
  }

  lemma KeptIsHeld(m: Machine, source: nat, address: nat, bytes: nat)
    requires Fragmented(bytes) && address + bytes <= |m.memory| && m.sp <= address
    ensures var n := StoreFragments(m, source, address, 0, bytes);
            InMemoryRange(n, address, bytes) && Slice(n, address, bytes) == Kept(m, source, address, bytes)
  {
    hide StoreFragments, Splice, Kept;
    FragmentsKeep(m, source, address, bytes);
    SpliceHere(m.memory, address, Kept(m, source, address, bytes));
  }

  lemma KeptIsWhole(m: Machine, source: nat, address: nat, bytes: nat)
    requires Fragmented(bytes) && m.sp <= address
    ensures Kept(m, source, address, bytes) == General(m, source)[..bytes] <==>
            !Loses(source, address, m.sp, bytes) || General(m, source)[6] == PointerWord(address + 4)[6]
  {
    hide PointerWord, StackEncodable, General;
    var w := General(m, source);
    if Loses(source, address, m.sp, bytes) {
      assert Kept(m, source, address, bytes)[6] == PointerWord(address + 4)[6] && w[..7][6] == w[6];
      assert w[..7] == w[..6] + [w[6]];
    }
  }

  // ---------------------------------------------------------------- one store

  lemma FragmentedStep(bytes: nat, address: nat, source: nat, m: Machine, junk: Junk)
    requires 0 < bytes <= 8 && !Native(bytes) && InMemoryRange(m, address, bytes) && m.sp <= address
    ensures Step(Store(bytes, address, InRegister(source)), m, junk)
            == Done(StoreFragments(m.(clock := m.clock + 1), source, address, 0, bytes))
  {
    hide StoreFragments, Clobbered, WriteMemory, General, SetGeneral;
  }

  lemma FragmentedStoreStep(bytes: nat, address: nat, source: nat, m: Machine, junk: Junk)
    requires Fragmented(bytes) && InMemoryRange(m, address, bytes) && m.sp <= address
    ensures var n := Step(Store(bytes, address, InRegister(source)), m, junk);
            && n.Done? && MemoryHolds(n.machine, address, Kept(m, source, address, bytes))
            && Changes(m, n.machine, Spoiled(source), FLOAT_SCRATCH, address, address + bytes)
  {
    hide Step, StoreFragments, Changes, Splice, Kept, Loses, PointerWord;
    var later := m.(clock := m.clock + 1);
    FragmentedStep(bytes, address, source, m, junk);
    LaterKeeps(m, source, address, bytes);
    FragmentsKeep(later, source, address, bytes);
    FragmentsChange(later, source, address, 0, bytes);
    SpliceHere(m.memory, address, Kept(m, source, address, bytes));
    LaterChanges(m, StoreFragments(later, source, address, 0, bytes), Spoiled(source), address, address + bytes);
  }

  /// A store of any width from a register.
  lemma RegisterStoreStep(bytes: nat, address: nat, source: nat, m: Machine, junk: Junk)
    requires 0 < bytes <= 8 && InMemoryRange(m, address, bytes) && m.sp <= address
    ensures var n := Step(Store(bytes, address, InRegister(source)), m, junk);
            && n.Done? && MemoryHolds(n.machine, address, Kept(m, source, address, bytes))
            && Changes(m, n.machine, Spoiled(source), FLOAT_SCRATCH, address, address + bytes)
  {
    hide Step, Changes, MemoryHolds, PointerWord;
    if Native(bytes) {
      NativeStoreStep(bytes, address, InRegister(source), m, junk);
      WiderChanges(m, Step(Store(bytes, address, InRegister(source)), m, junk).machine, source, address, bytes);
    } else {
      FragmentedStoreStep(bytes, address, source, m, junk);
    }
  }

  lemma LaterKeeps(m: Machine, source: nat, address: nat, bytes: nat)
    requires bytes <= 8 && m.sp <= address
    ensures Kept(m.(clock := m.clock + 1), source, address, bytes) == Kept(m, source, address, bytes)
  {
  }

  lemma LaterChanges(m: Machine, n: Machine, general: set<nat>, lo: nat, hi: nat)
    requires Changes(m.(clock := m.clock + 1), n, general, FLOAT_SCRATCH, lo, hi)
    ensures Changes(m, n, general, FLOAT_SCRATCH, lo, hi)
  {
  }

  lemma WiderChanges(m: Machine, n: Machine, source: nat, address: nat, bytes: nat)
    requires Changes(m, n, SCRATCH, FLOAT_SCRATCH, address, address + bytes)
    ensures Changes(m, n, Spoiled(source), FLOAT_SCRATCH, address, address + bytes)
  {
    hide General, FloatRegister;
  }

  /// A store instruction leaves the bytes of its value, in a register or spilled, if and only if the
  /// fragments do not lose the last one, or it is the byte in its place anyway.
  lemma StoreTells(bytes: nat, address: nat, p: Place, m: Machine, junk: Junk)
    requires Fragmented(bytes) && InMemoryRange(m, address, bytes) && m.sp <= address && Readable(m, p)
    ensures var n := Step(Store(bytes, address, p), m, junk);
            && n.Done?
            && (MemoryHolds(n.machine, address, PlaceWord(m, p)[..bytes]) <==>
                !Loses(SourceRegister(p), address, m.sp, bytes) || PlaceWord(m, p)[6] == PointerWord(address + 4)[6])
  {
    var r, f := SourceRegister(p), Fetched(m, p).(clock := m.clock + 1);
    FetchedStep(bytes, address, p, m, junk);
    hide Step, Fetched, StoreFragments, Slice, Kept, Loses, PointerWord, General, SourceRegister, PlaceWord, Readable;
    KeptIsHeld(f, r, address, bytes);
    KeptIsWhole(f, r, address, bytes);
  }

  lemma FetchedStep(bytes: nat, address: nat, p: Place, m: Machine, junk: Junk)
    requires Fragmented(bytes) && InMemoryRange(m, address, bytes) && m.sp <= address && Readable(m, p)
    ensures var f := Fetched(m, p).(clock := m.clock + 1);
            && f.sp == m.sp && f.memory == m.memory && General(f, SourceRegister(p)) == PlaceWord(m, p)
            && Step(Store(bytes, address, p), m, junk) == Done(StoreFragments(f, SourceRegister(p), address, 0, bytes))
  {
    hide StoreFragments, Clobbered, WriteMemory, Slice;
  }
}
