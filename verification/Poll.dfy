/** The poll set: a caller's array of sockets whose live prefix is kept dense by shifting on removal. */
module Poll {

  /** fossil_net_socket_t; the poll set only compares sockets by identity. */
  class Socket {
  }

  type Sockets = seq<Socket?>

  function IndexIn(s: Sockets, x: Socket?): (i: nat)
    ensures i <= |s| && (i < |s| ==> s[i] == x)
    ensures forall j | 0 <= j < i :: s[j] != x
  {
    if s == [] || s[0] == x then 0
    else
      var i := IndexIn(s[1..], x);
      assert forall j | 0 < j < i + 1 :: s[j] == s[1..][j - 1];
      i + 1
  }

  /** Without the first occurrence of `x`. */
  function Removed(s: Sockets, x: Socket?): Sockets {
    var i := IndexIn(s, x);
    if i < |s| then s[..i] + s[i + 1..] else s
  }

  function Added(s: Sockets, x: Socket?, max: nat): Sockets {
    if |s| < max then s + [x] else s
  }

  class SocketSet {
    const slots: array<Socket?>
    var count: nat

    constructor (capacity: nat)
      ensures Valid() && fresh(slots) && slots.Length == capacity && View() == []
    {
      slots := new Socket?[capacity](_ => null);
      count := 0;
    }

    ghost predicate Valid()
      reads this
    {
      count <= slots.Length
    }

    ghost function View(): Sockets
      requires Valid()
      reads this, slots
    {
      slots[..count]
    }

    /** fossil_net_socket_poll_add. */
    method Add(max: nat, sock: Socket?) returns (rc: int)
      requires Valid() && max <= slots.Length
      modifies this, slots
      ensures Valid() && rc == if sock == null || old(count) >= max then -1 else 0
      ensures View() == if sock == null || old(count) >= max then old(View()) else old(View()) + [sock]
      ensures slots[count..] == old(slots[..])[count..]
    {
      if sock == null {
        return -1;
      }
      if count >= max {
        return -1;
      }
      slots[count] := sock;
      count := count + 1;
      return 0;
    }

    /** fossil_net_socket_poll_remove. */
    method Remove(sock: Socket?) returns (rc: int)
      requires Valid()
      modifies this, slots
      ensures Valid() && rc == if sock != null && sock in old(View()) then 0 else -1
      ensures View() == if sock == null then old(View()) else Removed(old(View()), sock)
      ensures slots[count..] == old(slots[..])[count..]
    {
      if sock == null {
        return -1;
      }
      ghost var was := slots[..];
      var i := 0;
      while i < count
        invariant i <= count == old(count) && slots[..] == was
        invariant forall k | 0 <= k < i :: was[k] != sock
      {
        if slots[i] == sock {
          assert IndexIn(was[..count], sock) == i by {
            FirstIs(was[..count], sock, i);
          }
          ShiftDown(i);
          count := count - 1;
          assert was[..count + 1][..i] == was[..i] && was[..count + 1][i + 1..] == was[i + 1..count + 1];
          return 0;
        }
        i := i + 1;
      }
      assert slots[..count] == was[..i];
      return -1;
    }

    /** The inner loop: everything behind `i` moves one place down. */
    method ShiftDown(i: nat)
      requires Valid() && i < count
      modifies slots
      ensures slots[..count - 1] == old(slots[..])[..i] + old(slots[..])[i + 1..count]
      ensures slots[count - 1..] == old(slots[..])[count - 1..]
    {
      ghost var was := slots[..];
      var j := i;
      while j < count - 1
        invariant i <= j <= count - 1
        invariant slots[..j] == was[..i] + was[i + 1..j + 1]
        invariant slots[j..] == was[j..]
      {
        slots[j] := slots[j + 1];
        j := j + 1;
      }
    }

    /** fossil_net_socket_poll_clear. */
    method Clear() returns (rc: int)
      requires Valid()
      modifies this
      ensures Valid() && rc == 0 && View() == []
    {
      count := 0;
      return 0;
    }
  }

  lemma FirstIs(s: Sockets, x: Socket?, i: nat)
    requires i < |s| && s[i] == x && forall j | 0 <= j < i :: s[j] != x
    ensures IndexIn(s, x) == i
  {}

  // ---------------------------------------------------------------- what removal keeps

  function Without(s: Sockets, x: Socket?): Sockets {
    if s == [] then [] else Without(s[..|s| - 1], x) + if s[|s| - 1] == x then [] else [s[|s| - 1]]
  }

  lemma {:induction false} WithoutAppend(s: Sockets, t: Sockets, x: Socket?)
    ensures Without(s + t, x) == Without(s, x) + Without(t, x)
  {
    if t == [] {
      assert s + t == s;
    } else {
      assert (s + t)[..|s + t| - 1] == s + t[..|t| - 1];
      WithoutAppend(s, t[..|t| - 1], x);
    }
  }

  /** Removal takes one occurrence out of the bag. */
  lemma {:induction false} RemovedTakesOne(s: Sockets, x: Socket?)
    ensures multiset(Removed(s, x)) == multiset(s) - multiset{x}
  {
    var i := IndexIn(s, x);
    if i < |s| {
      AroundFirst(s, i);
      OneTaken(s[..i], s[i + 1..], x);
    }
  }

  lemma AroundFirst(s: Sockets, i: nat)
    requires i < |s|
    ensures s == s[..i] + [s[i]] + s[i + 1..]
  {}

  lemma OneTaken(a: Sockets, b: Sockets, x: Socket?)
    ensures multiset(a + [x] + b) - multiset{x} == multiset(a + b)
  {}

  /** Removal leaves all other sockets as they were, in order. */
  lemma {:induction false} RemovedKeepsOrder(s: Sockets, x: Socket?)
    ensures Without(Removed(s, x), x) == Without(s, x)
  {
    var i := IndexIn(s, x);
    if i < |s| {
      AroundFirst(s, i);
      OneLess(s[..i], s[i + 1..], x);
    }
  }

  lemma OneLess(a: Sockets, b: Sockets, x: Socket?)
    ensures Without(a + b, x) == Without(a + [x] + b, x)
  {
    WithoutAppend(a + [x], b, x);
    WithoutLast(a, x);
    WithoutAppend(a, b, x);
  }

  lemma WithoutLast(a: Sockets, x: Socket?)
    ensures Without(a + [x], x) == Without(a, x)
  {
    assert (a + [x])[..|a|] == a;
  }

  /** Removing right after adding restores the set exactly when only copies follow the first occurrence. */
  lemma RemoveUndoesAdd(s: Sockets, x: Socket?)
    ensures Removed(s + [x], x) == s <==> forall j | IndexIn(s, x) <= j < |s| :: s[j] == x
  {
    var i := IndexIn(s, x);
    assert (s + [x])[..i] == s[..i];
    FirstIs(s + [x], x, i);
    if Removed(s + [x], x) == s {
      forall j | i <= j < |s| ensures s[j] == x {
        AllShifted(s, x, i, j);
      }
    } else if forall j | i <= j < |s| :: s[j] == x {
      CopiesRestored(s, x, i);
    }
  }

  lemma CopiesRestored(s: Sockets, x: Socket?, i: nat)
    requires i <= |s| && i == IndexIn(s + [x], x) && forall j | i <= j < |s| :: s[j] == x
    ensures Removed(s + [x], x) == s
  {
    var r := Removed(s + [x], x);
    assert r == (s + [x])[..i] + (s + [x])[i + 1..];
    forall k | 0 <= k < |s| ensures r[k] == s[k] {}
  }

  /** If the shifted set is the set itself, every element behind the first occurrence equals the next. */
  lemma {:induction false} AllShifted(s: Sockets, x: Socket?, i: nat, j: nat)
    requires i <= j < |s| && Removed(s + [x], x) == s && i == IndexIn(s + [x], x)
    ensures s[j] == x
    decreases |s| - j
  {
    var t := s + [x];
    assert t[..i] + t[i + 1..] == s;
    assert s[j] == t[j + 1];
    if j + 1 < |s| {
      AllShifted(s, x, i, j + 1);
    }
  }

  // ---------------------------------------------------------------- runs

  datatype Op = Add(sock: Socket) | Remove(sock: Socket) | Clear

  function Step(s: Sockets, op: Op, max: nat): Sockets {
    match op
    case Add(x) => Added(s, x, max)
    case Remove(x) => Removed(s, x)
    case Clear => []
  }

  function Run(ops: seq<Op>, max: nat): Sockets {
    if ops == [] then [] else Step(Run(ops[..|ops| - 1], max), ops[|ops| - 1], max)
  }

  /** The same run on a bag of bounded size, where order plays no part. */
  function RunBag(ops: seq<Op>, max: nat): multiset<Socket?> {
    if ops == [] then multiset{}
    else
      var bag := RunBag(ops[..|ops| - 1], max);
      match ops[|ops| - 1]
      case Add(x) => if |bag| < max then bag + multiset{x} else bag
      case Remove(x) => bag - multiset{x}
      case Clear => multiset{}
  }

  /** In a run, too, a socket is put at the end while there is room. */
  lemma AddedLast(ops: seq<Op>, x: Socket, max: nat)
    ensures Run(ops + [Add(x)], max) == if |Run(ops, max)| < max then Run(ops, max) + [x] else Run(ops, max)
  {
    assert (ops + [Add(x)])[..|ops|] == ops;
  }

  /** After any run the set holds the bag's sockets and never more than `max` of them. */
  lemma {:induction false} RunIsBounded(ops: seq<Op>, max: nat)
    ensures |Run(ops, max)| <= max && multiset(Run(ops, max)) == RunBag(ops, max)
  {
    if ops != [] {
      var s := Run(ops[..|ops| - 1], max);
      RunIsBounded(ops[..|ops| - 1], max);
      match ops[|ops| - 1] {
        case Add(x) =>
        case Remove(x) => RemovedTakesOne(s, x);
        case Clear =>
      }
    }
  }
}
