/** Channels, and the poller that mirrors their interest masks in the kernel's epoll set. */
module Poller {

  /** The two event groups a channel can be interested in. */
  datatype Interest = Interest(read: bool, write: bool)

  const NONE := Interest(false, false)

  datatype CtlOp = Add | Mod | Del

  const NEW: int := -1
  const ADDED: int := 1
  const DELETED: int := 2

  const EEXIST: int := 17
  const ENOENT: int := 2

  class Channel {
    const fd: int
    const poller: EpollPoller
    var events: Interest
    var index: int
    var addedToLoop: bool

    constructor (poller: EpollPoller, fd: int)
      ensures this.poller == poller && this.fd == fd
      ensures events == NONE && index == NEW && !addedToLoop
    {
      this.poller := poller;
      this.fd := fd;
      events := NONE;
      index := NEW;
      addedToLoop := false;
    }

    predicate IsNoneEvent()
      reads this
    {
      events == NONE
    }

    predicate IsWriting()
      reads this
    {
      events.write
    }

    /** The channel and its poller tell the same story: a channel the poller does not know asks
        for nothing; one it knows is in the table under its own descriptor. */
    ghost predicate Valid()
      reads this, poller, poller.channels.Values
    {
      && poller.Valid()
      && (index == NEW ==> events == NONE && (fd in poller.channels ==> poller.channels[fd] != this))
      && (index != NEW ==> fd in poller.channels && poller.channels[fd] == this)
    }

    /** Setting the mask and telling the poller. A channel the poller does not know can be
        registered only while its descriptor is not in use by another one. */
    method SetEvents(wanted: Interest)
      requires Valid()
      requires index == NEW && wanted != NONE ==> fd !in poller.channels
      modifies this, poller
      ensures Valid() && events == wanted && addedToLoop
      ensures index == (if wanted != NONE then ADDED else if old(index) == NEW then NEW else DELETED)
      ensures poller.channels == if index == NEW then old(poller.channels) else old(poller.channels)[fd := this]
      ensures poller.interest == if index == NEW then old(poller.interest)
                                 else if wanted == NONE then old(poller.interest) - {fd}
                                 else old(poller.interest)[fd := wanted]
    {
      events := wanted;
      addedToLoop := true;
      poller.UpdateChannel(this);
    }

    method EnableReading()
      requires Valid()
      requires index == NEW ==> fd !in poller.channels
      modifies this, poller
      ensures Valid() && events == old(events).(read := true) && index == ADDED
      ensures poller.channels == old(poller.channels)[fd := this]
      ensures poller.interest == old(poller.interest)[fd := events]
    {
      SetEvents(events.(read := true));
    }

    method EnableWriting()
      requires Valid()
      requires index == NEW ==> fd !in poller.channels
      modifies this, poller
      ensures Valid() && events == old(events).(write := true) && index == ADDED
      ensures poller.channels == old(poller.channels)[fd := this]
      ensures poller.interest == old(poller.interest)[fd := events]
    {
      SetEvents(events.(write := true));
    }

    method DisableReading()
      requires Valid()
      modifies this, poller
      ensures Valid() && events == old(events).(read := false)
      ensures index == NEW <==> old(index) == NEW
      ensures poller.channels == old(poller.channels)
      ensures poller.interest == if index == NEW then old(poller.interest)
                                 else if events == NONE then old(poller.interest) - {fd}
                                 else old(poller.interest)[fd := events]
    {
      SetEvents(events.(read := false));
    }

    method DisableWriting()
      requires Valid()
      modifies this, poller
      ensures Valid() && events == old(events).(write := false)
      ensures index == NEW <==> old(index) == NEW
      ensures poller.channels == old(poller.channels)
      ensures poller.interest == if index == NEW then old(poller.interest)
                                 else if events == NONE then old(poller.interest) - {fd}
                                 else old(poller.interest)[fd := events]
    {
      SetEvents(events.(write := false));
    }

    method DisableAll()
      requires Valid()
      modifies this, poller
      ensures Valid() && events == NONE
      ensures index == (if old(index) == NEW then NEW else DELETED)
      ensures poller.channels == old(poller.channels)
      ensures poller.interest == if index == NEW then old(poller.interest) else old(poller.interest) - {fd}
    {
      SetEvents(NONE);
    }

    /** The kernel is not told anything: a channel that asks for nothing is not in its set. */
    method Remove()
      requires Valid()
      requires IsNoneEvent() && index != NEW
      modifies this, poller
      ensures Valid() && index == NEW && events == NONE && !addedToLoop
      ensures poller.channels == old(poller.channels) - {fd}
      ensures poller.interest == old(poller.interest)
    {
      addedToLoop := false;
      poller.RemoveChannel(this);
    }
  }

  class EpollPoller {
    var channels: map<int, Channel>
    var interest: map<int, Interest>   // the kernel's epoll set

    constructor ()
      ensures Valid() && channels == map[] && interest == map[]
    {
      channels := map[];
      interest := map[];
    }

    /** The table entry of one descriptor is consistent with the kernel. */
    ghost predicate Agrees(fd: int)
      requires fd in channels
      reads this, channels[fd]
    {
      var c := channels[fd];
      && c.fd == fd && c.poller == this
      && (c.index == ADDED || c.index == DELETED)
      && (c.index == ADDED <==> c.events != NONE)
      && (c.index == ADDED <==> fd in interest)
      && (fd in interest ==> interest[fd] == c.events)
    }

    /** The kernel's set is exactly { fd -> events | index == ADDED }. */
    ghost predicate Valid()
      reads this, channels.Values
    {
      && (forall fd :: fd in channels ==> Agrees(fd))
      && interest.Keys <= channels.Keys
    }

    /** As Valid, except for one channel whose mask has been changed but not yet reported. */
    ghost predicate ValidBut(c: Channel)
      reads this, c, channels.Values
    {
      && (forall fd :: fd in channels && channels[fd] != c ==> Agrees(fd))
      && interest.Keys <= channels.Keys
      && c.poller == this
      && (c.index == NEW && c.fd in channels ==> c.events == NONE && channels[c.fd] != c)
      && (c.index != NEW ==> c.fd in channels && channels[c.fd] == c)
      && (c.index == NEW || c.index == ADDED || c.index == DELETED)
      && (c.index != NEW ==> (c.index == ADDED <==> c.fd in interest))
      && (forall fd :: fd in channels && channels[fd] == c ==> fd == c.fd)
    }

    /** The kernel side of epoll_ctl. */
    method EpollCtl(op: CtlOp, fd: int, events: Interest) returns (errno: int)
      modifies this`interest
      ensures errno == if op == Add then (if fd in old(interest) then EEXIST else 0)
                       else (if fd in old(interest) then 0 else ENOENT)
      ensures interest == if errno != 0 then old(interest)
                          else if op == Del then old(interest) - {fd} else old(interest)[fd := events]
    {
      if op == Add && fd in interest { return EEXIST; }
      if op != Add && fd !in interest { return ENOENT; }
      errno := 0;
      interest := if op == Del then interest - {fd} else interest[fd := events];
    }

    /** Every registration call succeeds: an Add meets an absent descriptor, a Mod or Del a present
        one. */
    method Update(op: CtlOp, channel: Channel)
      requires (op == Add) == (channel.fd !in interest)
      modifies this`interest
      ensures interest == if op == Del then old(interest) - {channel.fd}
                          else old(interest)[channel.fd := channel.events]
    {
      var errno := EpollCtl(op, channel.fd, channel.events);
      assert errno == 0;
    }

    method UpdateChannel(channel: Channel)
      requires ValidBut(channel)
      modifies this, channel`index
      ensures Valid() && channel.Valid()
      ensures channel.index == (if channel.events != NONE then ADDED
                                else if old(channel.index) == NEW then NEW else DELETED)
      ensures channels == if channel.index == NEW then old(channels) else old(channels)[channel.fd := channel]
      ensures interest == if channel.index == NEW then old(interest)
                          else if channel.events == NONE then old(interest) - {channel.fd}
                          else old(interest)[channel.fd := channel.events]
    {
      if channel.index == NEW || channel.index == DELETED {
        if channel.IsNoneEvent() {
          return;
        }
        if channel.index == NEW {
          channels := channels[channel.fd := channel];
        }
        channel.index := ADDED;
        Update(Add, channel);
      } else if channel.IsNoneEvent() {
        Update(Del, channel);
        channel.index := DELETED;
      } else {
        Update(Mod, channel);
      }
    }

    method RemoveChannel(channel: Channel)
      requires ValidBut(channel) && Valid()
      requires channel.index != NEW
      requires channel.IsNoneEvent()
      modifies this, channel`index
      ensures Valid() && channel.Valid() && channel.index == NEW
      ensures channels == old(channels) - {channel.fd}
      ensures interest == old(interest)
    {
      assert Agrees(channel.fd);
      channels := channels - {channel.fd};
      if channel.index == ADDED {
        // The registration would have to be deleted here.
        assert false;
      }
      channel.index := NEW;
    }
  }
}
