/** File descriptors of a process. */
module Descriptors {

  /** The descriptors the process holds. Closing one that is not open is not allowed. */
  class Kernel {
    var open: set<int>
    ghost var handedOut: multiset<int>
    ghost var closed: multiset<int>

    /** Each descriptor handed out has been closed as often as it was handed out, unless it is open. */
    ghost predicate Valid()
      reads this
    {
      handedOut == closed + multiset(open)
    }

    constructor (open: set<int>)
      ensures Valid() && this.open == open
    {
      this.open := open;
      handedOut := multiset(open);
      closed := multiset{};
    }

    /** accept, which will hand out this descriptor; one that is negative or in use stands
        for a failure. */
    method Accept(next: int) returns (fd: int)
      requires Valid()
      modifies this
      ensures Valid() && fd == if next >= 0 && next !in old(open) then next else -1
      ensures fd >= 0 ==> open == old(open) + {fd} && handedOut == old(handedOut) + multiset{fd}
      ensures fd < 0 ==> unchanged(this)
    {
      if next < 0 || next in open {
        return -1;
      }
      fd := next;
      open := open + {fd};
      handedOut := handedOut + multiset{fd};
      assert multiset(open) == multiset(old(open)) + multiset{fd};
    }

    method Close(fd: int)
      requires Valid() && fd in open
      modifies this
      ensures Valid() && open == old(open) - {fd} && handedOut == old(handedOut)
    {
      open := open - {fd};
      closed := closed + multiset{fd};
      assert multiset(old(open)) == multiset(open) + multiset{fd};
    }
  }
}
