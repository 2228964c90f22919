/** What both plugins share of a sysrepo diff. */
module Sysrepo {
  /** sr_change_oper_t */
  datatype Operation = Created | Modified | Deleted | Moved
}
