/** The loops of operate and radio_operate (c/src/agent.c) over the credential vault. */
module SlotFitter {
  import opened Bytes
  import opened SlotFitting

  ghost function Listed(refs: seq<string>): set<string> {
    set r | r in refs
  }

  /** received_ok: the length, the prefix, then digit by digit. */
  method ReceivedRef(ref: string) returns (ok: bool)
    ensures ok <==> ReceivedOk(ref)
  {
    var n := |ref|;
    if (n != 36 && n != 38) || ref[..4] != "wsc-" {
      return false;
    }
    for i := 4 to 36
      invariant forall j :: 4 <= j < i ==> LowerHex(ref[j])
    {
      if !('0' <= ref[i] <= '9' || 'a' <= ref[i] <= 'f') {
        return false;
      }
    }
    ok := n == 36 || (ref[36] == '-' && '1' <= ref[37] <= '7');
  }

  /** printable_ascii. */
  method PrintableAscii(data: string) returns (ok: bool)
    ensures ok <==> forall i :: 0 <= i < |data| ==> ' ' <= data[i] <= '~'
  {
    for i := 0 to |data|
      invariant forall j :: 0 <= j < i ==> ' ' <= data[j] <= '~'
    {
      if data[i] < ' ' || data[i] > '~' {
        return false;
      }
    }
    ok := true;
  }

  /** The vault's stored credentials (em_vault_persist_received, em_vault_forget). */
  class CredentialVault {
    var entries: Vault

    constructor ()
      ensures entries == map[]
    {
      entries := map[];
    }

    method Persist(ref: string, passphrase: string, backend: bool) returns (ok: bool)
      modifies this
      ensures ok == Stores(old(entries), ref, passphrase, backend)
      ensures entries == if ok then old(entries)[ref := passphrase] else old(entries)
    {
      ok := ReceivedRef(ref);
      if !ok || |passphrase| < 8 || |passphrase| > 63 {
        return false;
      }
      ok := PrintableAscii(passphrase);
      if !ok || ref in entries || !backend {
        return false;
      }
      entries := entries[ref := passphrase];
    }

    method Remove(ref: string)
      modifies this
      ensures entries == old(entries) - {ref}
    {
      entries := entries - {ref};
    }

    /** The loop over an exchange's references when it never reached the journal. */
    method ForgetAll(refs: array<string>, n: nat)
      requires n <= refs.Length
      modifies this
      ensures entries == Forget(old(entries), Listed(refs[..n]))
    {
      var i := 0;
      while i < n
        invariant i <= n
        invariant entries == old(entries) - Listed(refs[..i])
      {
        assert refs[..i + 1] == refs[..i] + [refs[i]];
        Remove(refs[i]);
        i := i + 1;
      }
    }
  }

  /** How many slots the profile has of each role on the radio. */
  method CountSlots(roles: seq<string>) returns (slots: Slots)
    ensures slots.fronthaul == multiset(roles)["fronthaul"] && slots.backhaul == multiset(roles)["backhaul"]
  {
    var fronthaul, backhaul := 0, 0;
    for k := 0 to |roles|
      invariant fronthaul == multiset(roles[..k])["fronthaul"] && backhaul == multiset(roles[..k])["backhaul"]
    {
      assert roles[..k + 1] == roles[..k] + [roles[k]];
      if roles[k] == "fronthaul" {
        fronthaul := fronthaul + 1;
      } else if roles[k] == "backhaul" {
        backhaul := backhaul + 1;
      }
    }
    assert roles[..|roles|] == roles;
    slots := Slots(fronthaul, backhaul);
  }

  lemma {:induction false} FirstFrom(set_: seq<Bss>, i: nat, k: nat)
    requires i <= k <= |set_| && forall j :: i <= j < k ==> !IsFronthaul(set_[j])
    ensures FirstFronthaul(set_, i) == FirstFronthaul(set_, k)
    decreases k - i
  {
    if i < k {
      FirstFrom(set_, i + 1, k);
    }
  }

  method FindPrimary(set_: seq<Bss>) returns (primary: nat)
    ensures primary <= |set_| && forall j :: 0 <= j < primary ==> !IsFronthaul(set_[j])
    ensures FirstFronthaul(set_, 0) == if primary < |set_| then Some(primary) else None
  {
    primary := 0;
    while primary < |set_| && set_[primary].role != "fronthaul"
      invariant primary <= |set_| && forall j :: 0 <= j < primary ==> !IsFronthaul(set_[j])
    {
      primary := primary + 1;
    }
    FirstFrom(set_, 0, primary);
  }

  /** Once a store has failed, or the references are used up, nothing more is fitted. */
  lemma {:induction false} FittedFinal(x: Exchange, slots: Slots, vault: Vault, n: nat, m: nat)
    requires n <= m <= |x.set_|
    requires var f := Fitted(x, slots, vault, n); n == m || f.stopped || |f.mapped| >= Cap(x)
    ensures Fitted(x, slots, vault, m) == Fitted(x, slots, vault, n)
    decreases m - n
  {
    if n < m {
      FittedFinal(x, slots, vault, n, m - 1);
    }
  }

  /** One BSS of the set: a slot of its role taken, its reference written and its passphrase stored. */
  method FitOne(x: Exchange, i: nat, mapped: seq<Mapped>, free: Slots, vault: CredentialVault,
                refs: array<string>, nrefs: nat, ghost slots: Slots, ghost before: Vault, ghost held: seq<string>)
    returns (more: seq<Mapped>, left: Slots, stopped: bool)
    requires i < |x.set_| && |mapped| < Cap(x) && nrefs == |held| + |mapped| < refs.Length
    requires Fitted(x, slots, before, i) == Fit(mapped, free, vault.entries, false) && Written(refs[..], held, mapped)
    modifies vault, refs
    ensures Fitted(x, slots, before, i + 1) == Fit(more, left, vault.entries, stopped) && Written(refs[..], held, more)
    ensures |mapped| <= |more| <= |mapped| + 1
  {
    more, left, stopped := mapped, free, false;
    var b := x.set_[i];
    if x.primary == Some(i) || FreeOf(free, IsFronthaul(b)) == 0 {
      return;
    }
    left := TakeSlot(free, IsFronthaul(b));
    ghost var earlier := refs[..];
    refs[nrefs] := Ref(x.id, |mapped| + 1);
    var ok := vault.Persist(refs[nrefs], b.passphrase, i !in x.refused);
    if ok {
      more := mapped + [Mapped(i, refs[nrefs])];
    } else {
      stopped := true;
    }
    WrittenNext(earlier, refs[..], held, mapped, more, i);
  }

  /** The mapped BSSes' references, in order. */
  function RefsIn(mapped: seq<Mapped>): seq<string> {
    if mapped == [] then [] else RefsIn(mapped[..|mapped| - 1]) + [mapped[|mapped| - 1].ref]
  }

  lemma RefsInSnoc(mapped: seq<Mapped>, m: Mapped)
    ensures RefsIn(mapped + [m]) == RefsIn(mapped) + [m.ref]
  {
    assert (mapped + [m])[..|mapped|] == mapped;
  }

  lemma {:induction false} RefsInSet(mapped: seq<Mapped>)
    ensures Listed(RefsIn(mapped)) == RefsOf(mapped) && |RefsIn(mapped)| == |mapped|
    decreases |mapped|
  {
    if mapped != [] {
      var n := |mapped| - 1;
      RefsInSet(mapped[..n]);
      assert RefsOf(mapped) == RefsOf(mapped[..n]) + {mapped[n].ref} by {
        assert forall k :: 0 <= k < n ==> mapped[..n][k] == mapped[k];
      }
    }
  }

  /** The array begins with the references held before and those of the BSSes mapped. */
  ghost predicate Written(refs: seq<string>, held: seq<string>, mapped: seq<Mapped>) {
    held + RefsIn(mapped) <= refs
  }

  lemma {:induction false} WrittenNext(refs: seq<string>, next: seq<string>, held: seq<string>, mapped: seq<Mapped>,
                                       more: seq<Mapped>, i: nat)
    requires |held| + |mapped| < |refs| == |next| && next[..|held| + |mapped|] == refs[..|held| + |mapped|]
    requires Written(refs, held, mapped) && (more == mapped || more == mapped + [Mapped(i, next[|held| + |mapped|])])
    ensures Written(next, held, more)
  {
    var n := |held| + |mapped|;
    RefsInSet(mapped);
    assert refs[..n] == held + RefsIn(mapped);
    if more != mapped {
      RefsInSnoc(mapped, Mapped(i, next[n]));
      assert next[..n + 1] == next[..n] + [next[n]];
    }
  }

  /** The fitting loop, `refs` holding the references in use before it: the primary's, if there is one. */
  method FitSet(x: Exchange, slots: Slots, vault: CredentialVault, refs: array<string>)
    returns (nrefs: nat, additional: seq<Mapped>)
    requires refs.Length == MAX_REFS
    modifies vault, refs
    ensures var f := Fitted(x, slots, old(vault.entries), |x.set_|); additional == f.mapped && vault.entries == f.vault
    ensures nrefs <= MAX_REFS && refs[..nrefs] == old(refs[..MAX_REFS - Cap(x)]) + RefsIn(additional)
  {
    nrefs, additional := MAX_REFS - Cap(x), [];
    ghost var before, held := vault.entries, refs[..nrefs];
    var free, stopped, i := slots, false, 0;
    while i < |x.set_| && nrefs < MAX_REFS && !stopped
      invariant i <= |x.set_| && nrefs == |held| + |additional| <= MAX_REFS
      invariant Fitted(x, slots, before, i) == Fit(additional, free, vault.entries, stopped)
      invariant Written(refs[..], held, additional)
      decreases |x.set_| - i
    {
      var more: seq<Mapped>;
      more, free, stopped := FitOne(x, i, additional, free, vault, refs, nrefs, slots, before, held);
      additional, nrefs, i := more, nrefs + |more| - |additional|, i + 1;
    }
    FittedFinal(x, slots, before, i, |x.set_|);
    RefsInSet(additional);
  }

  /** operate from the primary stored: the others fitted, then the engine asked. */
  method FitAndRequest(x: Exchange, slots: Slots, vault: CredentialVault, refs: array<string>, multiBss: bool,
                       requested: bool)
    returns (additional: seq<Mapped>)
    requires refs.Length == MAX_REFS && x.primary.Some? && refs[0] == Ref(x.id, 0)
    modifies vault, refs
    ensures var f := if multiBss then Fitted(x, slots, old(vault.entries), |x.set_|)
                     else Fit([], slots, old(vault.entries), false);
            && additional == f.mapped
            && vault.entries == if requested then f.vault else Forget(f.vault, {Ref(x.id, 0)} + RefsOf(f.mapped))
  {
    additional := [];
    var nrefs := 1;
    assert refs[..1] == [Ref(x.id, 0)] + RefsIn(additional);
    if multiBss {
      nrefs, additional := FitSet(x, slots, vault, refs);
    }
    if !requested {
      RefsInSet(additional);
      vault.ForgetAll(refs, nrefs);
    }
  }

  /** operate: the whole exchange on the pod's own radio. */
  method OperateExchange(id: string, set_: seq<Bss>, roles: seq<string>, vault: CredentialVault, refused: set<nat>,
                         bound: bool, multiBss: bool, requested: bool)
    returns (accepted: bool, additional: seq<Mapped>)
    modifies vault
    ensures var slots := Slots(multiset(roles)["fronthaul"], multiset(roles)["backhaul"]);
            var o := Operate(id, set_, slots, old(vault.entries), refused, bound, multiBss, requested);
            vault.entries == o.vault && accepted == o.Accepted? && (accepted ==> additional == o.mapped)
  {
    accepted, additional := false, [];
    if !bound {
      return;
    }
    var primary := FindPrimary(set_);
    if primary == |set_| {
      return;
    }
    var refs := new string[MAX_REFS](_ => "");
    refs[0] := Ref(id, 0);
    var ok := vault.Persist(refs[0], set_[primary].passphrase, primary !in refused);
    if !ok {
      return;
    }
    var slots := CountSlots(roles);
    additional := FitAndRequest(Exchange(id, set_, Some(primary), refused), slots, vault, refs, multiBss, requested);
    accepted := requested;
  }

  /** radio_operate: the whole exchange on a further radio. */
  method OperateRadio(id: string, set_: seq<Bss>, roles: seq<string>, vault: CredentialVault, refused: set<nat>,
                      bound: bool, requested: bool)
    returns (accepted: bool, additional: seq<Mapped>)
    modifies vault
    ensures var slots := Slots(multiset(roles)["fronthaul"], multiset(roles)["backhaul"]);
            var o := RadioOperate(id, set_, slots, old(vault.entries), refused, bound, requested);
            vault.entries == o.vault && accepted == o.Accepted? && (accepted ==> additional == o.mapped)
  {
    accepted, additional := false, [];
    if !bound {
      return;
    }
    var refs := new string[MAX_REFS](_ => "");
    var slots := CountSlots(roles);
    var nrefs: nat;
    nrefs, additional := FitSet(Exchange(id, set_, None, refused), slots, vault, refs);
    accepted := requested;
    if !requested {
      RefsInSet(additional);
      vault.ForgetAll(refs, nrefs);
    }
  }
}
