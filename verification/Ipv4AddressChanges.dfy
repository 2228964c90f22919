/** src/interfaces/src/plugin/api/interfaces/interface/ipv4/address/change.c: the change
    callbacks for the leaves of one IPv4 address, and the passes that call them. */
module Ipv4AddressChanges {
  import opened Wrappers
  import opened Netmasks
  import opened AddressActions
  import opened Changes
  import opened ModContexts

  /** The range that the data model allows for a prefix-length leaf. */
  type Length = n: nat | n <= 32

  /** The subnet choice of an address: one of two leaves. */
  datatype Subnet = PrefixLength(length: Length) | Mask(mask: Netmask)

  type Config = map<AddrKey, Subnet>

  /** The change event's session: the running datastore, still holding the old
      configuration, and the configuration being applied. */
  datatype Session = Session(running: Config, candidate: Config)

  function LengthLeaf(config: Config, key: AddrKey): Option<Length> {
    if key in config && config[key].PrefixLength? then Some(config[key].length) else None
  }

  function MaskLeaf(config: Config, key: AddrKey): Option<Netmask> {
    if key in config && config[key].Mask? then Some(config[key].mask) else None
  }

  function IpLeaf(config: Config, key: AddrKey): Option<string> {
    if key in config then Some(key.ip) else None
  }

  function IpChange(session: Session, key: AddrKey): Option<Change<string>> {
    LeafChange(key, IpLeaf(session.running, key), IpLeaf(session.candidate, key))
  }

  function LengthChange(session: Session, key: AddrKey): Option<Change<Length>> {
    LeafChange(key, LengthLeaf(session.running, key), LengthLeaf(session.candidate, key))
  }

  function MaskChange(session: Session, key: AddrKey): Option<Change<Netmask>> {
    LeafChange(key, MaskLeaf(session.running, key), MaskLeaf(session.candidate, key))
  }

  // ---- what each callback asks of the kernel ----

  /** The prefix length that the nested iterations put into the scratch fields. */
  function CreatedLength(session: Session, key: AddrKey): Option<nat> {
    match LengthChange(session, key)
    case Some(c) => Some(c.value % 256)
    case None =>
      match MaskChange(session, key)
      case Some(c) => PrefixOfMask(c.value)
      case None => None
  }

  /** The prefix length found in the running datastore. */
  function RunningLength(session: Session, key: AddrKey): Option<nat> {
    match LengthLeaf(session.running, key)
    case Some(n) => Some(n)
    case None =>
      match MaskLeaf(session.running, key)
      case Some(mask) => PrefixOfMask(mask)
      case None => None
  }

  function PutOrFail(key: AddrKey, length: Option<nat>): Action {
    if length.Some? then Put(KernelAddr(key, length.value)) else Fail
  }

  function DropOrFail(key: AddrKey, length: Option<nat>): Action {
    if length.Some? then Drop(KernelAddr(key, length.value)) else Fail
  }

  function IpAction(links: set<string>, session: Session, ev: Change<string>): Action {
    if ev.key.link !in links then Fail
    else match ev.op
      case Created => PutOrFail(ev.key, CreatedLength(session, ev.key))
      case Modified => Fail
      case Deleted => DropOrFail(ev.key, RunningLength(session, ev.key))
      case Moved => Skip
  }

  function LengthAction(links: set<string>, ev: Change<Length>): Action
    requires ev.op.Modified? ==> ev.previous.Some?
  {
    if ev.key.link !in links then Fail
    else if ev.op.Modified? then Swap(KernelAddr(ev.key, ev.previous.value), KernelAddr(ev.key, ev.value))
    else Skip
  }

  function MaskAction(links: set<string>, ev: Change<Netmask>): Action
    requires ev.op.Modified? ==> ev.previous.Some?
  {
    if ev.key.link !in links then Fail
    else if ev.op.Modified? then
      var after := PrefixOfMask(ev.value);
      var before := PrefixOfMask(ev.previous.value);
      if after.None? || before.None? then Fail
      else Swap(KernelAddr(ev.key, before.value), KernelAddr(ev.key, after.value))
    else Skip
  }

  // ---- the callbacks ----

  method GetPrefixLength(ctx: ModContext, ev: Change<Length>) returns (error: int)
    requires ev.op.Created?
    modifies ctx`ipv4PrefixLength, ctx`ipv4PrefixSet
    ensures error == 0
    ensures ctx.ipv4PrefixSet && ctx.ipv4PrefixLength == ev.value % 256
  {
    ctx.ipv4PrefixLength := ev.value % 256;
    ctx.ipv4PrefixSet := true;
    error := 0;
  }

  method GetNetmask(ctx: ModContext, ev: Change<Netmask>, order: ByteOrder) returns (error: int)
    requires ev.op.Created?
    modifies ctx`ipv4PrefixLength, ctx`ipv4PrefixSet
    ensures error == if PrefixOfMask(ev.value).Some? then 0 else -1
    ensures ctx.ipv4PrefixSet == (error == 0)
    ensures error == 0 ==> ctx.ipv4PrefixLength == PrefixOfMask(ev.value).value
  {
    var length: nat;
    error, length := NetmaskToPrefix(ev.value, order);
    if error != 0 {
      error := -1;
      ctx.ipv4PrefixSet := false;
      return;
    }
    ctx.ipv4PrefixLength := length;
    ctx.ipv4PrefixSet := true;
  }

  /** The created branch up to the point where the prefix length is known. */
  method CollectLength(ctx: ModContext, session: Session, key: AddrKey, order: ByteOrder) returns (error: int)
    requires ctx.ScratchClear()
    requires LengthChange(session, key).Some? ==> LengthChange(session, key).value.op.Created?
    requires MaskChange(session, key).Some? ==> MaskChange(session, key).value.op.Created?
    modifies ctx`ipv4PrefixLength, ctx`ipv4PrefixSet
    ensures error == if CreatedLength(session, key).Some? then 0 else -1
    ensures error == 0 ==> ctx.ipv4PrefixLength == CreatedLength(session, key).value
  {
    error := 0;
    var lengthChange := LengthChange(session, key);
    if lengthChange.Some? {
      error := GetPrefixLength(ctx, lengthChange.value);
    }
    if !ctx.ipv4PrefixSet {
      var maskChange := MaskChange(session, key);
      if maskChange.Some? {
        error := GetNetmask(ctx, maskChange.value, order);
        if error != 0 {
          return;
        }
      }
      if !ctx.ipv4PrefixSet {
        error := -1;
      }
    }
  }

  /** Whatever happens, the scratch fields are clear again on return, and the address
      put into the kernel has the length of its own subnet leaf. */
  method ChangeIp(ctx: ModContext, kernel: Kernel, session: Session, ev: Change<string>, order: ByteOrder)
      returns (error: int)
    requires ctx.ScratchClear()
    requires ev.op.Created? && LengthChange(session, ev.key).Some? ==> LengthChange(session, ev.key).value.op.Created?
    requires ev.op.Created? && MaskChange(session, ev.key).Some? ==> MaskChange(session, ev.key).value.op.Created?
    modifies ctx`ipv4PrefixLength, ctx`ipv4PrefixSet, kernel
    ensures ctx.ScratchClear()
    ensures (kernel.state, error) == Perform(kernel.family, old(kernel.state), IpAction(ctx.links, session, ev))
  {
    hide Submit, CreatedLength, RunningLength, LengthChange, MaskChange;
    error := 0;
    if ev.key.link !in ctx.links {
      error := -1;
    } else {
      match ev.op
      case Created =>
        error := CollectLength(ctx, session, ev.key, order);
        if error == 0 {
          error := kernel.AddrAdd(KernelAddr(ev.key, ctx.ipv4PrefixLength));
        }
      case Modified =>
        error := -1;
      case Deleted =>
        error := DeleteRunning(kernel, session, ev.key, order);
      case Moved =>
    }
    if error != 0 {
      error := -1;
    }
    ctx.ipv4PrefixLength := 0;
    ctx.ipv4PrefixSet := false;
  }

  /** The deleted branch: the length comes from the running datastore. */
  method DeleteRunning(kernel: Kernel, session: Session, key: AddrKey, order: ByteOrder) returns (error: int)
    modifies kernel
    ensures var (s, e) := Perform(kernel.family, old(kernel.state), DropOrFail(key, RunningLength(session, key)));
            kernel.state == s && (error == 0 <==> e == 0)
  {
    var length: nat;
    var prefixVal := LengthLeaf(session.running, key);
    if prefixVal.Some? {
      length := prefixVal.value;
    } else {
      var netmaskVal := MaskLeaf(session.running, key);
      if netmaskVal.None? {
        return -1;
      }
      error, length := NetmaskToPrefix(netmaskVal.value, order);
      if error != 0 {
        return -1;
      }
    }
    error := kernel.AddrDelete(KernelAddr(key, length));
  }

  method ChangePrefixLength(ctx: ModContext, kernel: Kernel, ev: Change<Length>) returns (error: int)
    requires ev.op.Modified? ==> ev.previous.Some?
    modifies kernel
    ensures (kernel.state, error) == Perform(kernel.family, old(kernel.state), LengthAction(ctx.links, ev))
  {
    error := 0;
    if ev.key.link !in ctx.links {
      error := -1;
    } else if ev.op.Modified? {
      error := Replace(kernel, KernelAddr(ev.key, ev.previous.value), KernelAddr(ev.key, ev.value));
    }
  }

  method ChangeNetmask(ctx: ModContext, kernel: Kernel, ev: Change<Netmask>, order: ByteOrder) returns (error: int)
    requires ev.op.Modified? ==> ev.previous.Some?
    modifies kernel
    ensures (kernel.state, error) == Perform(kernel.family, old(kernel.state), MaskAction(ctx.links, ev))
  {
    error := 0;
    if ev.key.link !in ctx.links {
      error := -1;
    } else if ev.op.Modified? {
      var length, oldLength: nat;
      error, length := NetmaskToPrefix(ev.value, order);
      if error == 0 {
        error, oldLength := NetmaskToPrefix(ev.previous.value, order);
        if error == 0 {
          error := Replace(kernel, KernelAddr(ev.key, oldLength), KernelAddr(ev.key, length));
        }
      }
    }
  }

  /** Deletes the old address, then adds the new one. */
  method Replace(kernel: Kernel, before: KernelAddr, after: KernelAddr) returns (error: int)
    modifies kernel
    ensures (kernel.state, error) == Perform(kernel.family, old(kernel.state), Swap(before, after))
  {
    error := kernel.AddrDelete(before);
    if error == 0 {
      error := kernel.AddrAdd(after);
    }
    if error != 0 {
      error := -1;
    }
  }
}
