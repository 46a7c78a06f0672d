/** Fitting an M2 set's BSSes to a radio's slots (operate and radio_operate, c/src/agent.c). */
module SlotFitting {
  import opened Bytes

  const MAX_REFS := 8

  datatype Bss = Bss(role: string, ssid: string, passphrase: string)

  /** The profile's slots on the radio, by role. */
  datatype Slots = Slots(fronthaul: nat, backhaul: nat)

  type Vault = map<string, string>

  /** A BSS given a slot: its place in the set received, and its credential's reference. */
  datatype Mapped = Mapped(index: nat, ref: string)

  datatype Fit = Fit(mapped: seq<Mapped>, free: Slots, vault: Vault, stopped: bool)

  // ----- references and the vault

  predicate LowerHex(c: char) {
    '0' <= c <= '9' || 'a' <= c <= 'f'
  }

  predicate HexId(id: string) {
    |id| == 32 && forall i :: 0 <= i < 32 ==> LowerHex(id[i])
  }

  /** The exchange's own reference (0), or that of its n-th further BSS. */
  function Ref(id: string, n: nat): string
    requires n < 10
  {
    "wsc-" + id + (if n == 0 then "" else ['-', (48 + n) as char])
  }

  /** received_ok (c/src/vault.c): wsc-, 32 hexadecimal digits and at most a further -1 to -7. */
  predicate ReceivedOk(ref: string) {
    && (|ref| == 36 || |ref| == 38) && ref[..4] == "wsc-"
    && (forall i :: 4 <= i < 36 ==> LowerHex(ref[i]))
    && (|ref| == 36 || (ref[36] == '-' && '1' <= ref[37] <= '7'))
  }

  predicate PassphraseOk(p: string) {
    8 <= |p| <= 63 && forall i :: 0 <= i < |p| ==> ' ' <= p[i] <= '~'
  }

  /** em_vault_persist_received: a reference that is there already is never overwritten. */
  predicate Stores(vault: Vault, ref: string, passphrase: string, backend: bool) {
    ReceivedOk(ref) && PassphraseOk(passphrase) && ref !in vault && backend
  }

  // ----- the fitting loop

  predicate IsFronthaul(b: Bss) {
    b.role == "fronthaul"
  }

  function FreeOf(s: Slots, fronthaul: bool): nat {
    if fronthaul then s.fronthaul else s.backhaul
  }

  function TakeSlot(s: Slots, fronthaul: bool): Slots
    requires FreeOf(s, fronthaul) > 0
  {
    if fronthaul then s.(fronthaul := s.fronthaul - 1) else s.(backhaul := s.backhaul - 1)
  }

  /** The exchange: its id, the set, the BSS stored apart (the primary), and where the backend refuses. */
  datatype Exchange = Exchange(id: string, set_: seq<Bss>, primary: Option<nat>, refused: set<nat>)

  /** References there are for further BSSes: the primary's own counts among the eight. */
  function Cap(x: Exchange): (n: nat)
    ensures n < 9
  {
    if x.primary.Some? then MAX_REFS - 1 else MAX_REFS
  }

  function Next(x: Exchange, f: Fit, i: nat): Fit
    requires i < |x.set_|
  {
    var b := x.set_[i];
    if f.stopped || x.primary == Some(i) || |f.mapped| >= Cap(x) || FreeOf(f.free, IsFronthaul(b)) == 0 then f
    else
      var free, ref := TakeSlot(f.free, IsFronthaul(b)), Ref(x.id, |f.mapped| + 1);
      if Stores(f.vault, ref, b.passphrase, i !in x.refused) then
        Fit(f.mapped + [Mapped(i, ref)], free, f.vault[ref := b.passphrase], false)
      else f.(free := free, stopped := true)
  }

  /** The fitting after the first `n` BSSes received. */
  function Fitted(x: Exchange, slots: Slots, vault: Vault, n: nat): Fit
    requires n <= |x.set_|
  {
    if n == 0 then Fit([], slots, vault, false) else Next(x, Fitted(x, slots, vault, n - 1), n - 1)
  }

  // ----- what is mapped, role by role

  /** The places of the role's BSSes among the first `n`, the primary left out. */
  function Received(x: Exchange, fronthaul: bool, n: nat): seq<nat>
    requires n <= |x.set_|
  {
    if n == 0 then []
    else
      Received(x, fronthaul, n - 1)
      + (if x.primary != Some(n - 1) && IsFronthaul(x.set_[n - 1]) == fronthaul then [n - 1] else [])
  }

  predicate InSet(x: Exchange, m: seq<Mapped>) {
    forall k :: 0 <= k < |m| ==> m[k].index < |x.set_|
  }

  /** The places of the role's BSSes among those mapped. */
  function MappedOf(x: Exchange, m: seq<Mapped>, fronthaul: bool): seq<nat>
    requires InSet(x, m)
  {
    if m == [] then []
    else
      var n := |m| - 1;
      MappedOf(x, m[..n], fronthaul) + (if IsFronthaul(x.set_[m[n].index]) == fronthaul then [m[n].index] else [])
  }

  lemma MappedSnoc(x: Exchange, m: seq<Mapped>, y: Mapped, fronthaul: bool)
    requires InSet(x, m) && y.index < |x.set_|
    ensures InSet(x, m + [y])
    ensures MappedOf(x, m + [y], fronthaul)
         == MappedOf(x, m, fronthaul) + (if IsFronthaul(x.set_[y.index]) == fronthaul then [y.index] else [])
  {
    assert (m + [y])[..|m|] == m;
  }

  lemma {:induction false} MappedSplits(x: Exchange, m: seq<Mapped>)
    requires InSet(x, m)
    ensures |MappedOf(x, m, true)| + |MappedOf(x, m, false)| == |m|
    decreases |m|
  {
    if m != [] {
      MappedSplits(x, m[..|m| - 1]);
    }
  }

  /** For one role: a prefix of what was received, within its slots, unbroken while it may go on. */
  ghost predicate RoleFits(x: Exchange, slots: Slots, f: Fit, n: nat, fronthaul: bool)
    requires n <= |x.set_| && InSet(x, f.mapped)
  {
    var got, all := MappedOf(x, f.mapped, fronthaul), Received(x, fronthaul, n);
    && got <= all && |got| + FreeOf(f.free, fronthaul) <= FreeOf(slots, fronthaul)
    && (!f.stopped ==> |got| + FreeOf(f.free, fronthaul) == FreeOf(slots, fronthaul))
    && (!f.stopped && |f.mapped| < Cap(x) && FreeOf(f.free, fronthaul) > 0 ==> got == all)
  }

  lemma RoleNext(x: Exchange, slots: Slots, f: Fit, n: nat, fronthaul: bool)
    requires n < |x.set_| && InSet(x, f.mapped) && RoleFits(x, slots, f, n, fronthaul)
    ensures InSet(x, Next(x, f, n).mapped) && RoleFits(x, slots, Next(x, f, n), n + 1, fronthaul)
  {
    if Next(x, f, n).mapped == f.mapped {
      RoleSkips(x, slots, f, n, fronthaul);
    } else {
      RoleTakes(x, slots, f, n, fronthaul);
    }
  }

  lemma {:induction false} RoleSkips(x: Exchange, slots: Slots, f: Fit, n: nat, fronthaul: bool)
    requires n < |x.set_| && InSet(x, f.mapped) && RoleFits(x, slots, f, n, fronthaul)
    requires Next(x, f, n).mapped == f.mapped
    ensures RoleFits(x, slots, Next(x, f, n), n + 1, fronthaul)
  {
    assert Received(x, fronthaul, n) <= Received(x, fronthaul, n + 1);
  }

  lemma {:induction false} RoleTakes(x: Exchange, slots: Slots, f: Fit, n: nat, fronthaul: bool)
    requires n < |x.set_| && InSet(x, f.mapped) && RoleFits(x, slots, f, n, fronthaul)
    requires Next(x, f, n).mapped != f.mapped
    ensures InSet(x, Next(x, f, n).mapped) && RoleFits(x, slots, Next(x, f, n), n + 1, fronthaul)
  {
    MappedSnoc(x, f.mapped, Next(x, f, n).mapped[|f.mapped|], fronthaul);
  }

  /**
   * The BSSes given slots are, for each role, a prefix in received order of that role's, never
   * more than its slots; all that fit are taken unless a store failed or the references ran out.
   */
  lemma {:induction false} FitsInOrder(x: Exchange, slots: Slots, vault: Vault, n: nat, fronthaul: bool)
    requires n <= |x.set_|
    ensures var f := Fitted(x, slots, vault, n); InSet(x, f.mapped) && RoleFits(x, slots, f, n, fronthaul)
    decreases n
  {
    if n > 0 {
      FitsInOrder(x, slots, vault, n - 1, fronthaul);
      RoleNext(x, slots, Fitted(x, slots, vault, n - 1), n - 1, fronthaul);
    }
  }

  // ----- references are distinct and the vault is only extended

  lemma RefsDiffer(id: string, m: nat, n: nat)
    requires m < 10 && n < 10
    ensures Ref(id, m) == Ref(id, n) <==> m == n
  {
    if m != n && m > 0 && n > 0 {
      var k := 4 + |id| + 1;
      assert Ref(id, m)[k] == (48 + m) as char && Ref(id, n)[k] == (48 + n) as char;
    } else if m != n {
      assert |Ref(id, m)| != |Ref(id, n)|;
    }
  }

  /** The k-th mapped BSS has the k-th reference, and its passphrase is the only thing stored under it. */
  ghost predicate StoredAs(x: Exchange, f: Fit, vault: Vault) {
    && |f.mapped| <= MAX_REFS && InSet(x, f.mapped)
    && (forall k :: 0 <= k < |f.mapped| ==>
          && f.mapped[k].ref == Ref(x.id, k + 1) && f.mapped[k].ref !in vault
          && f.mapped[k].ref in f.vault && f.vault[f.mapped[k].ref] == x.set_[f.mapped[k].index].passphrase)
    && f.vault - RefsOf(f.mapped) == vault
  }

  ghost function RefsOf(m: seq<Mapped>): set<string> {
    set k | 0 <= k < |m| :: m[k].ref
  }

  lemma {:induction false} StoredNext(x: Exchange, f: Fit, vault: Vault, i: nat)
    requires i < |x.set_| && StoredAs(x, f, vault)
    ensures StoredAs(x, Next(x, f, i), vault)
  {
    var g := Next(x, f, i);
    if g.mapped != f.mapped {
      var ref := Ref(x.id, |f.mapped| + 1);
      forall k | 0 <= k < |f.mapped|
        ensures f.mapped[k].ref != ref
      {
        RefsDiffer(x.id, k + 1, |f.mapped| + 1);
      }
      assert ref !in f.vault;
      assert RefsOf(g.mapped) == RefsOf(f.mapped) + {ref} by {
        assert forall k :: 0 <= k < |f.mapped| ==> g.mapped[k] == f.mapped[k];
        assert g.mapped[|f.mapped|].ref == ref;
      }
      assert g.vault - RefsOf(g.mapped) == f.vault - RefsOf(f.mapped);
      assert ref !in vault;
    }
  }

  lemma {:induction false} FittedStored(x: Exchange, slots: Slots, vault: Vault, n: nat)
    requires n <= |x.set_|
    ensures StoredAs(x, Fitted(x, slots, vault, n), vault)
    decreases n
  {
    if n > 0 {
      FittedStored(x, slots, vault, n - 1);
      StoredNext(x, Fitted(x, slots, vault, n - 1), vault, n - 1);
    } else {
      assert RefsOf([]) == {};
      assert vault - {} == vault;
    }
  }

  // ----- exactly when every fitting BSS is taken

  const FURTHER := 7

  lemma RefReceived(id: string, n: nat)
    requires HexId(id) && n < 10
    ensures ReceivedOk(Ref(id, n)) <==> n <= FURTHER
  {
    var r := Ref(id, n);
    assert r[..4] == "wsc-";
    assert forall i :: 4 <= i < 36 ==> r[i] == id[i - 4];
    if n > 0 {
      assert r[36] == '-' && r[37] == (48 + n) as char;
    }
  }

  /** Nothing but the number of references stands in the way of storing the set. */
  predicate Storable(x: Exchange, vault: Vault) {
    && HexId(x.id) && x.refused == {}
    && (forall i :: 0 <= i < |x.set_| ==> PassphraseOk(x.set_[i].passphrase))
    && (forall n :: 1 <= n <= FURTHER ==> Ref(x.id, n) !in vault)
  }

  /** How many BSSes of the first `n` there are slots for. */
  function Wanted(x: Exchange, slots: Slots, n: nat): nat
    requires n <= |x.set_|
  {
    Min(slots.fronthaul, |Received(x, true, n)|) + Min(slots.backhaul, |Received(x, false, n)|)
  }

  /** Every BSS of the role there was a slot for is mapped, and none else. */
  ghost predicate RoleComplete(x: Exchange, slots: Slots, m: seq<Mapped>, n: nat, fronthaul: bool)
    requires n <= |x.set_| && InSet(x, m)
  {
    var all := Received(x, fronthaul, n);
    MappedOf(x, m, fronthaul) == all[..Min(FreeOf(slots, fronthaul), |all|)]
  }

  /** Either all that fit so far are taken, or the seven references are used up and one more was wanted. */
  ghost predicate Progress(x: Exchange, slots: Slots, f: Fit, n: nat)
    requires n <= |x.set_| && InSet(x, f.mapped)
  {
    || (!f.stopped && RoleComplete(x, slots, f.mapped, n, true) && RoleComplete(x, slots, f.mapped, n, false))
    || (|f.mapped| == FURTHER && Wanted(x, slots, n) > FURTHER && (f.stopped || Cap(x) == FURTHER))
  }

  lemma CanStore(x: Exchange, vault: Vault, f: Fit, i: nat)
    requires Storable(x, vault) && StoredAs(x, f, vault) && i < |x.set_| && |f.mapped| < MAX_REFS
    ensures Stores(f.vault, Ref(x.id, |f.mapped| + 1), x.set_[i].passphrase, i !in x.refused) <==> |f.mapped| < FURTHER
  {
    var ref := Ref(x.id, |f.mapped| + 1);
    RefReceived(x.id, |f.mapped| + 1);
    forall k | 0 <= k < |f.mapped|
      ensures f.mapped[k].ref != ref
    {
      RefsDiffer(x.id, k + 1, |f.mapped| + 1);
    }
    assert ref in f.vault ==> ref in f.vault - RefsOf(f.mapped);
  }

  /** The n-th BSS is one of the role's to fit. */
  predicate Counts(x: Exchange, n: nat, fronthaul: bool)
    requires n < |x.set_|
  {
    x.primary != Some(n) && IsFronthaul(x.set_[n]) == fronthaul
  }

  /** A BSS that is not the role's, or finds no slot of it, leaves the role complete as it is. */
  lemma CompleteStays(x: Exchange, slots: Slots, m: seq<Mapped>, n: nat, fronthaul: bool)
    requires n < |x.set_| && InSet(x, m) && RoleComplete(x, slots, m, n, fronthaul)
    requires Counts(x, n, fronthaul) ==> |Received(x, fronthaul, n)| >= FreeOf(slots, fronthaul)
    ensures RoleComplete(x, slots, m, n + 1, fronthaul)
  {
  }

  /** A BSS of the role that finds a slot completes the role again once it is mapped. */
  lemma CompleteGrows(x: Exchange, slots: Slots, m: seq<Mapped>, n: nat, ref: string)
    requires n < |x.set_| && InSet(x, m) && x.primary != Some(n)
    requires RoleComplete(x, slots, m, n, true) && RoleComplete(x, slots, m, n, false)
    requires var fronthaul := IsFronthaul(x.set_[n]); |Received(x, fronthaul, n)| < FreeOf(slots, fronthaul)
    ensures var more := m + [Mapped(n, ref)];
            InSet(x, more) && RoleComplete(x, slots, more, n + 1, true) && RoleComplete(x, slots, more, n + 1, false)
  {
    var fronthaul := IsFronthaul(x.set_[n]);
    MappedSnoc(x, m, Mapped(n, ref), fronthaul);
    MappedSnoc(x, m, Mapped(n, ref), !fronthaul);
    CompleteStays(x, slots, m, n, !fronthaul);
  }

  lemma WantedGrows(x: Exchange, slots: Slots, n: nat)
    requires n < |x.set_|
    ensures Wanted(x, slots, n) <= Wanted(x, slots, n + 1)
    ensures var fronthaul := IsFronthaul(x.set_[n]);
            Counts(x, n, fronthaul) && |Received(x, fronthaul, n)| < FreeOf(slots, fronthaul) ==>
              Wanted(x, slots, n + 1) == Wanted(x, slots, n) + 1
  {
  }

  lemma CompleteCount(x: Exchange, slots: Slots, m: seq<Mapped>, n: nat)
    requires n <= |x.set_| && InSet(x, m) && RoleComplete(x, slots, m, n, true) && RoleComplete(x, slots, m, n, false)
    ensures |m| == Wanted(x, slots, n)
  {
    MappedSplits(x, m);
  }

  lemma {:induction false} ProgressNext(x: Exchange, slots: Slots, vault: Vault, f: Fit, n: nat)
    requires n < |x.set_| && Storable(x, vault) && StoredAs(x, f, vault) && Progress(x, slots, f, n)
    requires |f.mapped| <= FURTHER && RoleFits(x, slots, f, n, IsFronthaul(x.set_[n]))
    ensures InSet(x, Next(x, f, n).mapped) && Progress(x, slots, Next(x, f, n), n + 1)
  {
    var fronthaul := IsFronthaul(x.set_[n]);
    WantedGrows(x, slots, n);
    if !f.stopped && RoleComplete(x, slots, f.mapped, n, true) && RoleComplete(x, slots, f.mapped, n, false) {
      CompleteCount(x, slots, f.mapped, n);
      if x.primary == Some(n) || FreeOf(f.free, fronthaul) == 0 {
        CompleteStays(x, slots, f.mapped, n, fronthaul);
        CompleteStays(x, slots, f.mapped, n, !fronthaul);
      } else {
        CanStore(x, vault, f, n);
        if |f.mapped| < FURTHER {
          CompleteGrows(x, slots, f.mapped, n, Ref(x.id, |f.mapped| + 1));
        }
      }
    }
  }

  lemma {:induction false} StartProgress(x: Exchange, slots: Slots, vault: Vault)
    ensures Progress(x, slots, Fit([], slots, vault, false), 0)
  {
    assert Received(x, true, 0) == [] && Received(x, false, 0) == [];
    assert MappedOf(x, [], true) == [] && MappedOf(x, [], false) == [];
  }

  /** What `ProgressNext` needs of the fitting so far. */
  lemma {:induction false} Prepared(x: Exchange, slots: Slots, vault: Vault, n: nat)
    requires n < |x.set_| && Storable(x, vault)
    ensures var f := Fitted(x, slots, vault, n);
            && StoredAs(x, f, vault) && |f.mapped| <= FURTHER && RoleFits(x, slots, f, n, IsFronthaul(x.set_[n]))
  {
    FittedStored(x, slots, vault, n);
    FitsInOrder(x, slots, vault, n, IsFronthaul(x.set_[n]));
    AtMostSeven(x, slots, vault, n);
  }

  ghost predicate Progressing(x: Exchange, slots: Slots, vault: Vault, n: nat)
    requires n <= |x.set_|
  {
    var f := Fitted(x, slots, vault, n);
    InSet(x, f.mapped) && Progress(x, slots, f, n)
  }

  lemma {:induction false} FittedNext(x: Exchange, slots: Slots, vault: Vault, n: nat)
    requires n < |x.set_| && Storable(x, vault) && Progressing(x, slots, vault, n)
    ensures Progressing(x, slots, vault, n + 1)
  {
    Prepared(x, slots, vault, n);
    ProgressNext(x, slots, vault, Fitted(x, slots, vault, n), n);
  }

  lemma {:induction false} FittedProgress(x: Exchange, slots: Slots, vault: Vault, n: nat)
    requires n <= |x.set_| && Storable(x, vault)
    ensures Progressing(x, slots, vault, n)
    decreases n
  {
    if n == 0 {
      StartProgress(x, slots, vault);
    } else {
      FittedProgress(x, slots, vault, n - 1);
      FittedNext(x, slots, vault, n - 1);
    }
  }

  /**
   * When the vault takes what it is given, each role's first BSSes fill its slots if and only if
   * no more than seven are wanted in all. For a further radio the code allows an eighth
   * reference, but the vault's pattern does not: the eighth store always fails.
   */
  lemma {:induction false} FillsSlotsIff(x: Exchange, slots: Slots, vault: Vault)
    requires Storable(x, vault)
    ensures var n, f := |x.set_|, Fitted(x, slots, vault, |x.set_|);
            && InSet(x, f.mapped) && |f.mapped| <= FURTHER
            && (RoleComplete(x, slots, f.mapped, n, true) && RoleComplete(x, slots, f.mapped, n, false)
                <==> Wanted(x, slots, n) <= FURTHER)
  {
    var n := |x.set_|;
    var f := Fitted(x, slots, vault, n);
    FittedProgress(x, slots, vault, n);
    FittedStored(x, slots, vault, n);
    MappedSplits(x, f.mapped);
    AtMostSeven(x, slots, vault, n);
  }

  lemma {:induction false} AllFronthaul(x: Exchange, n: nat)
    requires n <= |x.set_| && x.primary.None? && forall i :: 0 <= i < |x.set_| ==> IsFronthaul(x.set_[i])
    ensures |Received(x, true, n)| == n && |Received(x, false, n)| == 0
    decreases n
  {
    if n > 0 {
      AllFronthaul(x, n - 1);
    }
  }

  /** A further radio's exchange with eight fronthaul BSSes. */
  function EightWanted(): Exchange {
    Exchange(seq(32, _ => '0'), seq(8, _ => Bss("fronthaul", "net", "password")), None, {})
  }

  /** The input at which the slots are not filled: eight BSSes for eight slots, seven mapped. */
  lemma {:induction false} EighthIsLost()
    ensures var x, slots := EightWanted(), Slots(8, 0);
            && Storable(x, map[]) && Wanted(x, slots, 8) == 8 && |Fitted(x, slots, map[], 8).mapped| == FURTHER
            && InSet(x, Fitted(x, slots, map[], 8).mapped)
            && !RoleComplete(x, slots, Fitted(x, slots, map[], 8).mapped, 8, true)
  {
    var x, slots := EightWanted(), Slots(8, 0);
    AllFronthaul(x, 8);
    EightStorable();
    FillsSlotsIff(x, slots, map[]);
    FittedProgress(x, slots, map[], 8);
    EightCounts(x, slots, Fitted(x, slots, map[], 8));
  }

  lemma EightStorable()
    ensures Storable(EightWanted(), map[])
  {
    var x := EightWanted();
    assert forall i :: 0 <= i < 8 ==> x.set_[i].passphrase == "password";
    assert PassphraseOk("password");
  }

  lemma {:induction false} EightCounts(x: Exchange, slots: Slots, f: Fit)
    requires |x.set_| == 8 && slots == Slots(8, 0) && InSet(x, f.mapped)
    requires Progress(x, slots, f, 8) && |f.mapped| <= FURTHER
    requires |Received(x, true, 8)| == 8 && |Received(x, false, 8)| == 0
    ensures |f.mapped| == FURTHER && !RoleComplete(x, slots, f.mapped, 8, true)
  {
    MappedSplits(x, f.mapped);
    assert |MappedOf(x, f.mapped, true)| <= FURTHER;
  }

  lemma {:induction false} AtMostSeven(x: Exchange, slots: Slots, vault: Vault, n: nat)
    requires n <= |x.set_| && Storable(x, vault)
    ensures |Fitted(x, slots, vault, n).mapped| <= FURTHER
    decreases n
  {
    if n > 0 {
      AtMostSeven(x, slots, vault, n - 1);
      FittedStored(x, slots, vault, n - 1);
      CanStore(x, vault, Fitted(x, slots, vault, n - 1), n - 1);
    }
  }

  // ----- the whole exchange

  datatype Outcome = Rejected(vault: Vault) | Accepted(vault: Vault, primary: Option<string>, mapped: seq<Mapped>)

  function FirstFronthaul(set_: seq<Bss>, i: nat): (r: Option<nat>)
    requires i <= |set_|
    ensures r.Some? ==> r.value < |set_| && IsFronthaul(set_[r.value])
    decreases |set_| - i
  {
    if i == |set_| then None else if IsFronthaul(set_[i]) then Some(i) else FirstFronthaul(set_, i + 1)
  }

  /** The credentials of an exchange never journaled go too (em_vault_forget of each reference). */
  function Forget(vault: Vault, refs: set<string>): Vault {
    vault - refs
  }

  /** operate: `bound` and `requested` say whether the exchange is still live and the engine took it. */
  ghost function Operate(id: string, set_: seq<Bss>, slots: Slots, vault: Vault, refused: set<nat>,
                         bound: bool, multiBss: bool, requested: bool): Outcome
  {
    var p := FirstFronthaul(set_, 0);
    if !bound || p.None? || !Stores(vault, Ref(id, 0), set_[p.value].passphrase, p.value !in refused) then
      Rejected(vault)
    else
      var kept := vault[Ref(id, 0) := set_[p.value].passphrase];
      var f := if multiBss then Fitted(Exchange(id, set_, p, refused), slots, kept, |set_|)
               else Fit([], slots, kept, false);
      if requested then Accepted(f.vault, Some(Ref(id, 0)), f.mapped)
      else Rejected(Forget(f.vault, {Ref(id, 0)} + RefsOf(f.mapped)))
  }

  /** radio_operate: no primary, every BSS fitted. */
  ghost function RadioOperate(id: string, set_: seq<Bss>, slots: Slots, vault: Vault, refused: set<nat>,
                              bound: bool, requested: bool): Outcome
  {
    if !bound then Rejected(vault)
    else
      var f := Fitted(Exchange(id, set_, None, refused), slots, vault, |set_|);
      if requested then Accepted(f.vault, None, f.mapped) else Rejected(Forget(f.vault, RefsOf(f.mapped)))
  }

  /** The references an outcome leaves in the vault. */
  ghost function Kept(o: Outcome): set<string> {
    if o.Rejected? then {}
    else (if o.primary.Some? then {o.primary.value} else {}) + RefsOf(o.mapped)
  }

  lemma {:induction false} NoneMapped(slots: Slots, vault: Vault)
    ensures RefsOf([]) == {} && vault - {} == vault
  {
  }

  /** The primary's reference stays apart from the further ones. */
  lemma {:induction false} PrimaryApart(x: Exchange, f: Fit, vault: Vault)
    requires StoredAs(x, f, vault)
    ensures Ref(x.id, 0) !in RefsOf(f.mapped)
  {
    forall k | 0 <= k < |f.mapped|
      ensures f.mapped[k].ref != Ref(x.id, 0)
    {
      RefsDiffer(x.id, k + 1, 0);
    }
  }

  lemma TwoSteps(full: Vault, kept: Vault, vault: Vault, ref: string, secret: string, refs: set<string>)
    requires full - refs == kept && kept == vault[ref := secret] && ref !in vault && ref !in refs
    ensures full - ({ref} + refs) == vault
  {
    assert full - ({ref} + refs) == (full - refs) - {ref};
    assert kept - {ref} == vault;
  }

  // ----- the same, told from what was received

  /** The first BSS whose role is fronthaul. */
  predicate Leads(set_: seq<Bss>, i: nat) {
    i < |set_| && set_[i].role == "fronthaul" && forall j :: 0 <= j < i ==> set_[j].role != "fronthaul"
  }

  lemma {:induction false} FirstLeads(set_: seq<Bss>, i: nat)
    requires i <= |set_| && forall j :: 0 <= j < i ==> set_[j].role != "fronthaul"
    ensures var r := FirstFronthaul(set_, i);
            if r.Some? then Leads(set_, r.value) else forall j :: 0 <= j < |set_| ==> set_[j].role != "fronthaul"
    decreases |set_| - i
  {
    if i < |set_| && set_[i].role != "fronthaul" {
      FirstLeads(set_, i + 1);
    }
  }

  lemma {:induction false} LeadsIsFirst(set_: seq<Bss>, i: nat)
    requires Leads(set_, i)
    ensures FirstFronthaul(set_, 0) == Some(i)
  {
    FirstLeads(set_, 0);
    var r := FirstFronthaul(set_, 0);
    assert r.Some?;
  }

  /** The vault takes this secret: a reference of its pattern, not in use, 8 to 63 printable characters. */
  predicate Takes(vault: Vault, ref: string, secret: string, backend: bool) {
    && ReceivedOk(ref) && ref !in vault && backend
    && 8 <= |secret| <= 63 && forall i :: 0 <= i < |secret| ==> ' ' <= secret[i] <= '~'
  }

  /** Each mapped BSS is one of the set's, and the vault holds its passphrase under the reference it is given. */
  ghost predicate SecretsKept(id: string, set_: seq<Bss>, mapped: seq<Mapped>, before: Vault, vault: Vault) {
    |mapped| <= 8 && forall k: nat :: SecretKept(id, set_, mapped, before, vault, k)
  }

  ghost predicate SecretKept(id: string, set_: seq<Bss>, mapped: seq<Mapped>, before: Vault, vault: Vault, k: nat) {
    k < |mapped| && k < 8 ==>
      && mapped[k].index < |set_| && mapped[k].ref == "wsc-" + id + ['-', "12345678"[k]]
      && mapped[k].ref !in before && mapped[k].ref in vault && vault[mapped[k].ref] == set_[mapped[k].index].passphrase
  }

  lemma FurtherRef(k: nat)
    requires k < 8
    ensures (48 + k + 1) as char == "12345678"[k]
  {
  }

  lemma {:induction false} StoredSecrets(x: Exchange, f: Fit, before: Vault, vault: Vault)
    requires StoredAs(x, f, vault) && before.Keys <= vault.Keys
    ensures SecretsKept(x.id, x.set_, f.mapped, before, f.vault)
  {
    forall k: nat
      ensures SecretKept(x.id, x.set_, f.mapped, before, f.vault, k)
    {
      if k < |f.mapped| {
        assert f.mapped[k].ref == Ref(x.id, k + 1) && f.mapped[k].ref !in vault;
        FurtherRef(k);
      }
    }
  }

  /** For each role, the mapped BSSes are a prefix of that role's in the order received, within its slots. */
  ghost predicate RolesInOrder(x: Exchange, slots: Slots, mapped: seq<Mapped>) {
    && InSet(x, mapped)
    && MappedOf(x, mapped, true) <= Received(x, true, |x.set_|) && |MappedOf(x, mapped, true)| <= slots.fronthaul
    && MappedOf(x, mapped, false) <= Received(x, false, |x.set_|) && |MappedOf(x, mapped, false)| <= slots.backhaul
  }

  /** Of each role as many as it has slots for, the rest left out. */
  ghost predicate RolesFilled(x: Exchange, slots: Slots, mapped: seq<Mapped>) {
    && InSet(x, mapped)
    && RoleComplete(x, slots, mapped, |x.set_|, true) && RoleComplete(x, slots, mapped, |x.set_|, false)
  }

  /** What the fitting of a whole set comes to. */
  lemma {:induction false} FittedWhole(x: Exchange, slots: Slots, before: Vault, vault: Vault)
    requires before.Keys <= vault.Keys
    ensures var f := Fitted(x, slots, vault, |x.set_|);
            && StoredAs(x, f, vault) && SecretsKept(x.id, x.set_, f.mapped, before, f.vault)
            && RolesInOrder(x, slots, f.mapped)
            && (Storable(x, vault) ==> (RolesFilled(x, slots, f.mapped) <==> Wanted(x, slots, |x.set_|) <= 7))
  {
    FittedStored(x, slots, vault, |x.set_|);
    StoredSecrets(x, Fitted(x, slots, vault, |x.set_|), before, vault);
    FitsInOrder(x, slots, vault, |x.set_|, true);
    FitsInOrder(x, slots, vault, |x.set_|, false);
    if Storable(x, vault) {
      FillsSlotsIff(x, slots, vault);
    }
  }

  /**
   * An exchange touches nothing else in the vault: refused, it leaves the vault as it was; taken,
   * it adds its references and no more.
   */
  lemma {:induction false} OperateOwnsItsSecrets(id: string, set_: seq<Bss>, slots: Slots, vault: Vault,
                                                 refused: set<nat>, bound: bool, multiBss: bool, requested: bool)
    ensures var o := Operate(id, set_, slots, vault, refused, bound, multiBss, requested);
            && (o.Rejected? ==> o.vault == vault)
            && o.vault - Kept(o) == vault && Kept(o) !! vault.Keys
            && (o.Accepted? ==> o.primary.Some? && o.primary.value !in RefsOf(o.mapped))
  {
    var p := FirstFronthaul(set_, 0);
    if bound && p.Some? && Stores(vault, Ref(id, 0), set_[p.value].passphrase, p.value !in refused) {
      var ref := Ref(id, 0);
      var kept := vault[ref := set_[p.value].passphrase];
      var x := Exchange(id, set_, p, refused);
      var f := if multiBss then Fitted(x, slots, kept, |set_|) else Fit([], slots, kept, false);
      NoneMapped(slots, kept);
      if multiBss {
        FittedStored(x, slots, kept, |set_|);
      }
      assert StoredAs(x, f, kept);
      PrimaryApart(x, f, kept);
      TwoSteps(f.vault, kept, vault, ref, set_[p.value].passphrase, RefsOf(f.mapped));
      assert RefsOf(f.mapped) !! kept.Keys;
    } else {
      NoneMapped(slots, vault);
    }
  }

  /** The exchange is taken if and only if it is live, the engine takes it and its first fronthaul secret is stored. */
  lemma {:induction false} OperateAcceptedIff(id: string, set_: seq<Bss>, slots: Slots, vault: Vault, refused: set<nat>,
                                              bound: bool, multiBss: bool, requested: bool)
    ensures Operate(id, set_, slots, vault, refused, bound, multiBss, requested).Accepted?
       <==> && bound && requested
            && exists i: nat :: Leads(set_, i) && Takes(vault, "wsc-" + id, set_[i].passphrase, i !in refused)
  {
    var p := FirstFronthaul(set_, 0);
    FirstLeads(set_, 0);
    assert Ref(id, 0) == "wsc-" + id;
    if p.Some? {
      forall i: nat | Leads(set_, i)
        ensures i == p.value
      {
        LeadsIsFirst(set_, i);
      }
    }
  }

  /**
   * An exchange taken: its primary is "wsc-" and its id, under which the vault holds the passphrase of
   * the first fronthaul BSS; every mapped BSS's own passphrase is under its own reference; and the
   * BSSes mapped are, role by role, those the slots are filled with in the order received.
   */
  lemma {:induction false} OperateKeepsTheRightSecrets(id: string, set_: seq<Bss>, slots: Slots, vault: Vault,
                                                       refused: set<nat>, multiBss: bool, i: nat)
    requires Leads(set_, i) && Takes(vault, "wsc-" + id, set_[i].passphrase, i !in refused)
    ensures var o := Operate(id, set_, slots, vault, refused, true, multiBss, true);
            var x := Exchange(id, set_, Some(i), refused);
            && o.Accepted? && o.primary == Some("wsc-" + id)
            && "wsc-" + id in o.vault && o.vault["wsc-" + id] == set_[i].passphrase
            && SecretsKept(id, set_, o.mapped, vault, o.vault)
            && RolesInOrder(x, slots, o.mapped) && (!multiBss ==> o.mapped == [])
            && (multiBss && Storable(x, vault) ==>
                  (RolesFilled(x, slots, o.mapped) <==> Wanted(x, slots, |set_|) <= 7))
  {
    LeadsIsFirst(set_, i);
    assert Ref(id, 0) == "wsc-" + id;
    var kept := vault[Ref(id, 0) := set_[i].passphrase];
    var x := Exchange(id, set_, Some(i), refused);
    PrimaryStays(x, slots, vault, kept);
    NoneFitted(x, slots, kept);
    StoredSecrets(x, Fit([], slots, kept, false), vault, kept);
  }

  lemma {:induction false} NoneFitted(x: Exchange, slots: Slots, vault: Vault)
    ensures StoredAs(x, Fit([], slots, vault, false), vault) && RolesInOrder(x, slots, [])
  {
    NoneMapped(slots, vault);
    assert MappedOf(x, [], true) == [] && MappedOf(x, [], false) == [];
  }

  /** With the primary stored, the fitting of the others leaves it, and the seven further references were free. */
  lemma {:induction false} PrimaryStays(x: Exchange, slots: Slots, vault: Vault, kept: Vault)
    requires x.primary.Some? && x.primary.value < |x.set_|
    requires kept == vault[Ref(x.id, 0) := x.set_[x.primary.value].passphrase]
    ensures var f := Fitted(x, slots, kept, |x.set_|);
            && Ref(x.id, 0) in f.vault && f.vault[Ref(x.id, 0)] == x.set_[x.primary.value].passphrase
            && SecretsKept(x.id, x.set_, f.mapped, vault, f.vault) && RolesInOrder(x, slots, f.mapped)
            && (Storable(x, vault) ==> (RolesFilled(x, slots, f.mapped) <==> Wanted(x, slots, |x.set_|) <= 7))
  {
    var f := Fitted(x, slots, kept, |x.set_|);
    FittedWhole(x, slots, vault, kept);
    PrimaryApart(x, f, kept);
    assert Ref(x.id, 0) in kept;
    assert f.vault - RefsOf(f.mapped) == kept;
    if Storable(x, vault) {
      forall n | 1 <= n <= FURTHER
        ensures Ref(x.id, n) !in kept
      {
        RefsDiffer(x.id, 0, n);
      }
    }
  }

  lemma {:induction false} RadioOwnsItsSecrets(id: string, set_: seq<Bss>, slots: Slots, vault: Vault,
                                               refused: set<nat>,
                                               bound: bool, requested: bool)
    ensures var o := RadioOperate(id, set_, slots, vault, refused, bound, requested);
            && (o.Rejected? ==> o.vault == vault)
            && o.vault - Kept(o) == vault && Kept(o) !! vault.Keys
  {
    var x := Exchange(id, set_, None, refused);
    FittedStored(x, slots, vault, |set_|);
    NoneMapped(slots, vault);
    assert RefsOf(Fitted(x, slots, vault, |set_|).mapped) !! vault.Keys;
  }

  /**
   * A further radio's exchange is taken if and only if it is live and the engine takes it; then it has
   * no primary, every mapped BSS's own passphrase is under its own reference, and the BSSes mapped
   * fill the slots role by role in the order received.
   */
  lemma {:induction false} RadioKeepsTheRightSecrets(id: string, set_: seq<Bss>, slots: Slots, vault: Vault,
                                                     refused: set<nat>, bound: bool, requested: bool)
    ensures var o := RadioOperate(id, set_, slots, vault, refused, bound, requested);
            var x := Exchange(id, set_, None, refused);
            && (o.Accepted? <==> bound && requested)
            && (o.Accepted? ==>
                  && o.primary.None? && SecretsKept(id, set_, o.mapped, vault, o.vault)
                  && RolesInOrder(x, slots, o.mapped)
                  && (Storable(x, vault) ==> (RolesFilled(x, slots, o.mapped) <==> Wanted(x, slots, |set_|) <= 7)))
  {
    FittedWhole(Exchange(id, set_, None, refused), slots, vault, vault);
  }
}
