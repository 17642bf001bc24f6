/** The durable frame queue of the edge node: a directory of files, listed by
    sorting their names, plus the persisted next sequence number. The queue is
    what sorting the names yields: the contents are the files in that order, and
    every method says what becomes of them. A full directory refuses a frame and
    keeps what it has. */
module FrameSpool {
  import opened Wrappers
  import opened LexOrder
  import opened SpoolNames
  import opened Gateway

  class Spool {
    var files: map<string, Frame>
    var sequenceState: Option<nat>
    const maxFiles: nat
    /** The listing that `Pending` would return. */
    ghost var names: seq<string>

    ghost predicate Valid()
      reads this`files, this`names
    {
      Lists(names, files) && Named(files)
    }

    /** The queued frames, oldest first. */
    ghost function Contents(): seq<Frame>
      requires Valid()
      reads this`files, this`names
    {
      FramesOf(files, names)
    }

    constructor (maxFiles: nat)
      ensures Valid() && Contents() == [] && sequenceState == None && this.maxFiles == maxFiles
    {
      files, sequenceState, names := map[], None, [];
      this.maxFiles := maxFiles;
    }

    method Pending() returns (listing: seq<string>)
      requires Valid()
      ensures listing == names
    {
      hide Lists, Named;
      listing := [];
      var left := files.Keys;
      while left != {}
        invariant left <= files.Keys && NoDup(listing)
        invariant forall name :: name in listing <==> name in files && name !in left
        decreases |left|
      {
        var name :| name in left;
        left := left - {name};
        listing := listing + [name];
      }
      SortedIsListing(files, listing, names);
      listing := Sorted(listing);
    }

    /** One more than the largest queued sequence, or zero; the caller's start and
        the persisted state may push it further. */
    method NextSequence(requestedStart: nat) returns (next: nat)
      requires Valid()
      ensures next >= requestedStart
      ensures sequenceState.Some? ==> next >= sequenceState.value
      ensures forall f :: f in Contents() ==> f.sequence < next
      ensures next == requestedStart || Some(next) == sequenceState
                || (exists f :: f in Contents() && next == f.sequence + 1) || next == 0
    {
      var persisted := if sequenceState.Some? then sequenceState.value else 0;
      var pendingNext := 0;
      var listing := Pending();
      ghost var queue := Contents();
      hide FramesOf, Lists, Named, AfterAll;
      NothingQueued();
      for i := 0 to |listing|
        invariant pendingNext == AfterAll(queue[..i])
      {
        assert queue[i] == files[listing[i]];
        AfterOneMore(queue, i);
        if files[listing[i]].sequence + 1 > pendingNext {
          pendingNext := files[listing[i]].sequence + 1;
        }
      }
      assert queue[..|listing|] == queue;
      next := if requestedStart > persisted then requestedStart else persisted;
      next := if pendingNext > next then pendingNext else next;
    }

    method MarkNextSequence(value: nat)
      requires Valid()
      modifies this`sequenceState
      ensures sequenceState == Some(value)
    {
      sequenceState := Some(value);
    }

    /** Fails only when the directory is full. A frame newer than everything queued
        goes to the end of the queue, whatever the two clocks said. */
    method Enqueue(f: Frame, timestamp: string) returns (queued: bool)
      requires Valid()
      modifies this`files, this`names
      ensures Valid()
      ensures queued == (|old(Contents())| < maxFiles)
      ensures !queued ==> files == old(files) && Contents() == old(Contents())
      ensures queued ==> files == old(files)[FileName(f.node, f.sequence, timestamp) := f]
      ensures queued && NewestOf(old(Contents()), f) ==> Contents() == old(Contents()) + [f]
    {
      var listing := Pending();
      if |listing| >= maxFiles {
        return false;
      }
      var name := FileName(f.node, f.sequence, timestamp);
      StoredFileIsNamed(files, f, timestamp);
      if NewestOf(Contents(), f) {
        NewestGoesLast(files, names, f, timestamp);
        names := names + [name];
      } else {
        names := InsertedName(files, names, f, name);
      }
      files := files[name := f];
      return true;
    }

    /** Removes an acknowledged file. */
    method Unlink(name: string)
      requires Valid() && names != [] && name == names[0]
      modifies this`files, this`names
      ensures Valid()
      ensures names == old(names)[1..] && files == old(files) - {name}
      ensures Contents() == old(Contents())[1..]
    {
      ghost var rest := names[1..];
      assert names == [name] + rest;
      files := files - {name};
      names := rest;
    }
  }

  lemma LastIsNewest(names: seq<string>, name: string)
    requires NoDup(names) && IsSorted(names)
    requires forall i :: 0 <= i < |names| ==> Less(names[i], name)
    ensures NoDup(names + [name]) && IsSorted(names + [name])
  {
    forall i | 0 <= i < |names|
      ensures NotBelow(name, names[i]) && names[i] != name
    {
      LessAsymmetric(names[i], name);
    }
  }

  // ----- the directory as a value

  ghost predicate Lists(names: seq<string>, files: map<string, Frame>) {
    NoDup(names) && IsSorted(names) && forall name :: name in names <==> name in files
  }

  function FramesOf(files: map<string, Frame>, names: seq<string>): (queue: seq<Frame>)
    requires forall name :: name in names ==> name in files
    ensures |queue| == |names|
    ensures forall i :: 0 <= i < |queue| ==> queue[i] == files[names[i]]
  {
    seq(|names|, i requires 0 <= i < |names| => assert names[i] in names; files[names[i]])
  }

  /** The first sequence after all queued ones. */
  function AfterAll(queue: seq<Frame>): (n: nat)
    ensures forall f :: f in queue ==> f.sequence < n
    ensures n == 0 || exists f :: f in queue && n == f.sequence + 1
  {
    if queue == [] then 0
    else
      var init, last := queue[..|queue| - 1], queue[|queue| - 1];
      assert queue == init + [last];
      if last.sequence + 1 > AfterAll(init) then last.sequence + 1 else AfterAll(init)
  }

  lemma NothingQueued()
    ensures AfterAll([]) == 0
  {
  }

  lemma AfterOneMore(queue: seq<Frame>, i: nat)
    requires i < |queue|
    ensures AfterAll(queue[..i + 1])
         == if queue[i].sequence + 1 > AfterAll(queue[..i]) then queue[i].sequence + 1 else AfterAll(queue[..i])
  {
    assert queue[..i + 1][..i] == queue[..i];
  }

  predicate CarriesName(f: Frame, name: string, timestamp: string) {
    name == FileName(f.node, f.sequence, timestamp)
  }

  /** Every file carries the node and sequence of its frame in its name. */
  ghost predicate Named(files: map<string, Frame>) {
    forall name :: name in files ==> exists ts: string :: CarriesName(files[name], name, ts)
  }

  predicate NewestOf(queue: seq<Frame>, f: Frame) {
    f.sequence < LIMIT && forall g :: g in queue ==> g.node == f.node && g.sequence < f.sequence
  }

  /** A frame newer than everything queued goes to the end, whatever the clocks said. */
  lemma NewestGoesLast(files: map<string, Frame>, names: seq<string>, f: Frame, timestamp: string)
    requires Lists(names, files) && Named(files) && NewestOf(FramesOf(files, names), f)
    ensures var name := FileName(f.node, f.sequence, timestamp);
            && Lists(names + [name], files[name := f])
            && FramesOf(files[name := f], names + [name]) == FramesOf(files, names) + [f]
  {
    var name := FileName(f.node, f.sequence, timestamp);
    var before := FramesOf(files, names);
    forall i | 0 <= i < |names|
      ensures Less(names[i], name) && names[i] != name
    {
      assert names[i] in names && before[i] in before;
      var ts: string :| CarriesName(before[i], names[i], ts);
      NamesFollowSequence(f.node, before[i].sequence, f.sequence, ts, timestamp);
      LessAsymmetric(names[i], name);
    }
    LastIsNewest(names, name);
  }

  lemma InsertedName(files: map<string, Frame>, names: seq<string>, f: Frame, name: string) returns (more: seq<string>)
    requires Lists(names, files)
    ensures Lists(more, files[name := f])
  {
    if name in names {
      more := names;
    } else {
      more := Sorted(names + [name]);
      SortedIsSorted(names + [name]);
      NoDupPermutation(names + [name], more);
    }
  }

  lemma OneListing(files: map<string, Frame>, s: seq<string>, t: seq<string>)
    requires Lists(s, files) && Lists(t, files)
    ensures s == t
  {
    SameElementsSameMultiset(s, t);
    SortedIsUnique(s, t);
  }

  lemma SortedIsListing(files: map<string, Frame>, found: seq<string>, names: seq<string>)
    requires Lists(names, files) && NoDup(found)
    requires forall name :: name in found <==> name in files
    ensures Sorted(found) == names
  {
    SortedIsSorted(found);
    NoDupPermutation(found, Sorted(found));
    hide IsSorted, NoDup, Sorted;
    OneListing(files, Sorted(found), names);
  }

  lemma StoredFileIsNamed(files: map<string, Frame>, f: Frame, timestamp: string)
    requires Named(files)
    ensures Named(files[FileName(f.node, f.sequence, timestamp) := f])
  {
    assert CarriesName(f, FileName(f.node, f.sequence, timestamp), timestamp);
  }
}
