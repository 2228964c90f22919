/** src/interfaces/src/plugin/context.h: the data that change callbacks share while one
    diff is being applied. */
module ModContexts {
  import opened Wrappers

  /** interfaces_mod_changes_ctx_t: the link cache and the scratch fields through which
      nested callbacks hand a value to the callback that started them. */
  class ModContext {
    var links: set<string>
    var ipv4PrefixLength: nat
    var ipv4PrefixSet: bool
    var ipv4LinkLayer: Option<string>
    var ipv4LinkLayerSet: bool
    var ipv6PrefixLength: nat
    var ipv6PrefixSet: bool

    ghost predicate ScratchClear()
      reads this
    {
      && ipv4PrefixLength == 0 && !ipv4PrefixSet
      && ipv4LinkLayer == None && !ipv4LinkLayerSet
      && ipv6PrefixLength == 0 && !ipv6PrefixSet
    }

    /** interfaces_change_interface_init: a fresh link cache. */
    method Init(systemLinks: set<string>)
      requires ScratchClear()
      modifies this
      ensures ScratchClear() && links == systemLinks
    {
      links := systemLinks;
    }

    /** interfaces_change_interface_free zeroes the whole struct. */
    method Free()
      modifies this
      ensures ScratchClear() && links == {}
    {
      links := {};
      ipv4PrefixLength, ipv4PrefixSet := 0, false;
      ipv4LinkLayer, ipv4LinkLayerSet := None, false;
      ipv6PrefixLength, ipv6PrefixSet := 0, false;
    }

    /** The zero-initialised context. */
    constructor ()
      ensures ScratchClear() && links == {}
    {
      links := {};
      ipv4PrefixLength, ipv4PrefixSet := 0, false;
      ipv4LinkLayer, ipv4LinkLayerSet := None, false;
      ipv6PrefixLength, ipv6PrefixSet := 0, false;
    }
  }
}
