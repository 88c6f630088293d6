/** The array of struct pollfd of libuv/src/unix/posix-poll.c, which stands for a map from descriptors to events. */
module PollArray {
  import opened Watchers

  /** struct pollfd; an fd of -1 is an entry to be purged. */
  datatype Entry = Entry(fd: int, events: Mask, revents: Mask)

  const NONE := Entry(-1, {}, {})

  predicate Unique(es: seq<Entry>) {
    forall i, j :: 0 <= i < j < |es| && es[i].fd != -1 ==> es[i].fd != es[j].fd
  }

  function Map(es: seq<Entry>): map<int, Mask>
    requires Unique(es)
  {
    map i | 0 <= i < |es| && es[i].fd != -1 :: es[i].fd := es[i].events
  }

  lemma MapIs(es: seq<Entry>, m: map<int, Mask>)
    requires Unique(es)
    requires forall i :: 0 <= i < |es| && es[i].fd != -1 ==> es[i].fd in m && m[es[i].fd] == es[i].events
    requires forall fd | fd in m :: fd != -1 && exists i :: 0 <= i < |es| && es[i].fd == fd
    ensures Map(es) == m
  {
  }

  /** Where the entry of a descriptor is. */
  lemma MapHas(es: seq<Entry>, fd: int) returns (i: nat)
    requires Unique(es) && fd in Map(es)
    ensures i < |es| && es[i].fd == fd != -1 && Map(es)[fd] == es[i].events
  {
    i :| 0 <= i < |es| && es[i].fd != -1 && es[i].fd == fd;
  }

  /** The entry of a descriptor is changed. */
  lemma MapUpdate(es: seq<Entry>, i: nat, e: Entry)
    requires Unique(es) && i < |es| && es[i].fd != -1 && e.fd == es[i].fd
    ensures Unique(es[i := e]) && Map(es[i := e]) == Map(es)[e.fd := e.events]
  {
    var es', m' := es[i := e], Map(es)[e.fd := e.events];
    forall fd | fd in m' ensures fd != -1 && exists k :: 0 <= k < |es'| && es'[k].fd == fd {
      if fd == e.fd {
        assert es'[i].fd == fd;
      } else {
        var k := MapHas(es, fd);
        assert es'[k].fd == fd;
      }
    }
    MapIs(es', m');
  }

  /** An entry is appended. */
  lemma MapAppend(es: seq<Entry>, e: Entry)
    requires Unique(es) && e.fd != -1 && forall i :: 0 <= i < |es| ==> es[i].fd != e.fd
    ensures Unique(es + [e]) && Map(es + [e]) == Map(es)[e.fd := e.events]
  {
    var es', m' := es + [e], Map(es)[e.fd := e.events];
    forall fd | fd in m' ensures fd != -1 && exists k :: 0 <= k < |es'| && es'[k].fd == fd {
      if fd == e.fd {
        assert es'[|es|].fd == fd;
      } else {
        var k := MapHas(es, fd);
        assert es'[k].fd == fd;
      }
    }
    MapIs(es', m');
  }

  /** es without entry i, the last one in its place. */
  function Swapped(es: seq<Entry>, i: nat): seq<Entry>
    requires i < |es|
  {
    es[i := es[|es| - 1]][..|es| - 1]
  }

  lemma MapRemove(es: seq<Entry>, i: nat)
    requires Unique(es) && i < |es|
    ensures Unique(Swapped(es, i)) && Map(Swapped(es, i)) == Map(es) - {es[i].fd}
  {
    var es', m' := Swapped(es, i), Map(es) - {es[i].fd};
    forall fd | fd in m' ensures fd != -1 && exists k :: 0 <= k < |es'| && es'[k].fd == fd {
      var k := MapHas(es, fd);
      assert es'[if k == |es| - 1 then i else k].fd == fd;
    }
    MapIs(es', m');
  }

  /** Entry i is invalidated. */
  lemma MapInvalidate(es: seq<Entry>, i: nat)
    requires Unique(es) && i < |es|
    ensures Unique(es[i := NONE]) && Map(es[i := NONE]) == Map(es) - {es[i].fd}
  {
    var es', m' := es[i := NONE], Map(es) - {es[i].fd};
    forall fd | fd in m' ensures fd != -1 && exists k :: 0 <= k < |es'| && es'[k].fd == fd {
      var k := MapHas(es, fd);
      assert es'[k].fd == fd;
    }
    MapIs(es', m');
  }

  lemma MapWithout(es: seq<Entry>, fd: int)
    requires Unique(es) && (fd == -1 || forall i :: 0 <= i < |es| ==> es[i].fd != fd)
    ensures fd !in Map(es) && Map(es) - {fd} == Map(es)
  {
  }

  class PollFds {
    var fds: array<Entry>
    var used: nat
    var iterating: bool

    constructor ()
      ensures Valid() && fresh(fds) && Table() == map[] && !iterating
    {
      fds, used, iterating := new Entry[0], 0, false;
    }

    function Entries(): seq<Entry>
      reads `fds, `used, fds
    {
      if used <= fds.Length then fds[..used] else []
    }

    ghost predicate Valid()
      reads `fds, `used, fds
    {
      used <= fds.Length && Unique(Entries())
    }

    ghost function Table(): map<int, Mask>
      reads `fds, `used, fds
      requires Valid()
    {
      Map(Entries())
    }

    /** uv__pollfds_maybe_resize */
    method MaybeResize()
      requires Valid()
      modifies `fds
      ensures Valid() && used < fds.Length && Entries() == old(Entries()) && (fds == old(fds) || fresh(fds))
      ensures old(used < fds.Length) ==> fds == old(fds)
      ensures old(used == fds.Length) ==> fds.Length == if used == 0 then 64 else 2 * used
      ensures fds != old(fds) ==> forall i :: used <= i < fds.Length ==> fds[i] == NONE
    {
      if used < fds.Length {
        return;
      }
      var n := if fds.Length != 0 then fds.Length * 2 else 64;
      var p := new Entry[n](i => NONE);
      forall k | 0 <= k < fds.Length {
        p[k] := fds[k];
      }
      assert p[..used] == fds[..used];
      fds := p;
    }

    /** uv__pollfds_swap */
    method Swap(l: nat, r: nat)
      requires l < fds.Length && r < fds.Length
      modifies fds
      ensures fds[..] == old(fds[..][l := fds[r]][r := fds[l]])
    {
      fds[l], fds[r] := fds[r], fds[l];
    }

    /** uv__pollfds_add */
    method Add(fd: int, events: Mask)
      requires Valid() && !iterating && fd != -1
      modifies `fds, `used, fds
      ensures Valid() && Table() == old(Table())[fd := events] && (fds == old(fds) || fresh(fds))
    {
      hide Map, Unique;
      ghost var es := Entries();
      for i := 0 to used
        invariant Entries() == es && used == |es| <= fds.Length && fds == old(fds)
        invariant forall k :: 0 <= k < i ==> es[k].fd != fd
      {
        if fds[i].fd == fd {
          MapUpdate(es, i, fds[i].(events := events));
          fds[i] := fds[i].(events := events);
          assert Entries() == es[i := fds[i]];
          return;
        }
      }
      MaybeResize();
      MapAppend(es, Entry(fd, events, fds[used].revents));
      used := used + 1;
      fds[used - 1] := fds[used - 1].(fd := fd, events := events);
      assert Entries() == es + [fds[used - 1]];
    }

    /** uv__pollfds_del; with -1 it purges the invalidated entries. */
    method Del(fd: int)
      requires Valid() && !iterating
      modifies `used, fds
      ensures Valid() && Table() == old(Table()) - {fd} && used <= old(used)
      ensures forall i :: 0 <= i < used ==> Entries()[i].fd != fd
    {
      hide Map, Unique;
      var i := 0;
      while i < used
        invariant Valid() && 0 <= i <= used <= old(used)
        invariant Table() - {fd} == old(Table()) - {fd}
        invariant forall k :: 0 <= k < i ==> Entries()[k].fd != fd
        decreases used - i
      {
        if fds[i].fd == fd {
          ghost var es := Entries();
          MapRemove(es, i);
          used := used - 1;
          Swap(i, used);
          fds[used] := NONE;
          assert Entries() == Swapped(es, i);
          if fd != -1 {
            OnlyOne(es, i);
            return;
          }
        } else {
          i := i + 1;
        }
      }
      MapWithout(Entries(), fd);
    }

    /** uv__platform_invalidate_fd */
    method Invalidate(fd: int)
      requires Valid()
      modifies `used, fds
      ensures Valid() && Table() == old(Table()) - {fd} && used <= old(used)
      ensures iterating ==> used == old(used) && forall i :: 0 <= i < used ==> Entries()[i] == if old(Entries())[i].fd == fd then NONE else old(Entries())[i]
    {
      hide Map, Unique;
      if iterating {
        for i := 0 to used
          invariant Valid() && used == old(used) && fds.Length == old(fds.Length)
          invariant Table() - {fd} == old(Table()) - {fd}
          invariant forall k :: 0 <= k < used ==> Entries()[k] == if k < i && old(Entries())[k].fd == fd then NONE else old(Entries())[k]
        {
          if fds[i].fd == fd {
            ghost var es := Entries();
            MapInvalidate(es, i);
            fds[i] := NONE;
            assert Entries() == es[i := NONE];
          }
        }
        MapWithout(Entries(), fd);
      } else {
        Del(fd);
      }
    }
  }

  lemma OnlyOne(es: seq<Entry>, i: nat)
    requires Unique(es) && i < |es| && es[i].fd != -1
    ensures forall k :: 0 <= k < |es| - 1 ==> Swapped(es, i)[k].fd != es[i].fd
  {
  }
}
