/**
 The assembler's input: a linked stack of partly read buffers, over files and macro
 expansions, that delivers one character stream. Buffers that are used up go to a
 free list. A file is the bytes still to be read; a block has any size.
 */
module InputStack {
  import opened Wrappers
  import opened Bytes

  const BUFSIZ: nat := 8192
  const EOF := -1
  const IGN := -2
  const NEWLINE := 10
  const MAXPUSH: nat := 1000

  class Io {
    const b: array<byte>
    var f: Option<seq<byte>>  // FD_NONE, or what reading the descriptor will still deliver
    var p: nat
    var c: int
    var link: Io?

    constructor ()
      ensures fresh(b) && b.Length == BUFSIZ && f == None && c == 0
    {
      b := new byte[BUFSIZ](_ => 0);
      f, p, c, link := None, 0, 0, null;
    }

    /** The `c` characters at `p` of the buffer, then the rest of the file. */
    ghost predicate Holds(p: nat, c: int, text: seq<byte>)
      reads this`f, b
    {
      && b.Length == BUFSIZ && (c > 0 ==> p + c <= BUFSIZ)
      && text == (if c > 0 then b[p..p + c] else []) + if f.None? then [] else f.value
    }
  }

  /** `strcpy(b, text)`, then the character read ahead, if any; the result is the new length. */
  method WriteExpansion(b: array<byte>, text: seq<byte>, peekc: int) returns (n: nat)
    requires |text| + 2 <= b.Length
    modifies b
    ensures n <= b.Length && b[..n] == text + if peekc == IGN then [] else [Low(peekc)]
  {
    forall k | 0 <= k < |text| {
      b[k] := text[k];
    }
    n := |text|;
    assert b[..n] == text;
    if peekc != IGN {
      b[n] := Low(peekc);
      n := n + 1;
      b[n] := 0;
    }
  }

  /** A plain `char` is signed: what `filbuf` returns for a byte. */
  function Signed(x: byte): int {
    if x < 128 then x else x - 256
  }

  /** The texts of the sources, innermost first, run together. */
  function Flat(texts: seq<seq<byte>>): seq<byte> {
    if texts == [] then [] else texts[0] + Flat(texts[1..])
  }

  /** The element after `i`, or null. */
  ghost function After(list: seq<Io>, i: nat): Io? {
    if i + 1 < |list| then list[i + 1] else null
  }

  /** `list` starts at `head`, follows the links to null, and repeats nothing. */
  ghost predicate Linked(head: Io?, list: seq<Io>)
    reads list`link
  {
    && head == (if list == [] then null else list[0])
    && (forall i :: 0 <= i < |list| ==> list[i].link == After(list, i))
    && (forall i, j :: 0 <= i < j < |list| ==> list[i] != list[j])
  }

  lemma LinkedTail(head: Io, list: seq<Io>)
    requires Linked(head, list)
    ensures list != [] && head == list[0] && head !in list[1..] && Linked(head.link, list[1..])
  {
    assert list[0].link == After(list, 0);
    forall i | 0 <= i < |list[1..]|
      ensures list[1..][i].link == After(list[1..], i)
    {
      assert list[1..][i] == list[i + 1] && list[i + 1].link == After(list, i + 1);
    }
  }

  lemma LinkedCons(io: Io, list: seq<Io>)
    requires Linked(io.link, list) && io !in list
    ensures Linked(io, [io] + list)
  {
    var all := [io] + list;
    forall i | 0 <= i < |all|
      ensures all[i].link == After(all, i)
    {
      if i > 0 {
        assert all[i] == list[i - 1] && list[i - 1].link == After(list, i - 1);
      }
    }
  }

  lemma LinkedHead(head: Io?, list: seq<Io>)
    requires Linked(head, list)
    ensures head == if list == [] then null else list[0]
  {
  }

  /** Buffers of different sources do not overlap. */
  ghost predicate BuffersApart(all: set<Io>) {
    && (forall a :: a in all ==> a.b.Length == BUFSIZ)
    && (forall a, b :: a in all && b in all && a != b ==> a.b != b.b)
  }

  /** Every `Io` is on exactly one of the two lists or reserved. */
  ghost predicate Partition(all: set<Io>, stack: seq<Io>, free: seq<Io>, reserved: set<Io>) {
    && reserved <= all
    && (forall io :: io in all ==> io in stack || io in free || io in reserved)
    && (forall io :: io in stack ==> io in all && io !in free && io !in reserved)
    && (forall io :: io in free ==> io in all && io !in reserved)
  }

  lemma PartitionTake(all: set<Io>, stack: seq<Io>, free: seq<Io>)
    requires Partition(all, stack, free, {}) && free != [] && free[0] !in free[1..]
    ensures Partition(all, stack, free[1..], {free[0]}) && free[0] !in stack && free[0] in all
  {
    assert free == [free[0]] + free[1..];
  }

  lemma PartitionGrow(all: set<Io>, stack: seq<Io>, free: seq<Io>, io: Io)
    requires Partition(all, stack, free, {}) && io !in all
    ensures Partition(all + {io}, stack, free, {io}) && io !in stack && io !in free
  {
  }

  lemma PartitionPush(all: set<Io>, stack: seq<Io>, free: seq<Io>, io: Io)
    requires Partition(all, stack, free, {io})
    ensures Partition(all, [io] + stack, free, {}) && io !in stack && io !in free && io in all
  {
  }

  lemma PartitionPop(all: set<Io>, stack: seq<Io>, free: seq<Io>, reserved: set<Io>)
    requires Partition(all, stack, free, reserved) && stack != [] && stack[0] !in stack[1..]
    ensures Partition(all, stack[1..], [stack[0]] + free, reserved) && stack[0] !in free && stack[0] in all
  {
    assert stack == [stack[0]] + stack[1..];
  }

  lemma BuffersApartGrow(all: set<Io>, io: Io)
    requires BuffersApart(all) && io.b.Length == BUFSIZ && forall a :: a in all ==> a.b != io.b
    ensures BuffersApart(all + {io})
  {
  }

  /** The suspended sources hold the given texts. */
  ghost predicate Suspended(below: seq<Io>, texts: seq<seq<byte>>)
    reads below, set io | io in below :: io.b
  {
    |below| == |texts| && forall k :: 0 <= k < |below| ==> below[k].Holds(below[k].p, below[k].c, texts[k])
  }

  /** The sources hold the texts; the top one is read at `p`, the others where they were left. */
  ghost predicate Sources(stack: seq<Io>, p: nat, c: int, texts: seq<seq<byte>>)
    reads stack, set io | io in stack :: io.b
  {
    && |texts| == |stack|
    && (if stack == [] then c <= 0
        else stack[0].Holds(p, c, texts[0]) && Suspended(stack[1..], texts[1..]))
  }

  lemma SuspendSources(stack: seq<Io>, p: nat, c: int, texts: seq<seq<byte>>)
    requires Sources(stack, p, c, texts)
    requires stack == [] || (stack[0].p == p && stack[0].c == c)
    ensures Suspended(stack, texts)
  {
    forall k | 0 <= k < |stack|
      ensures stack[k].Holds(stack[k].p, stack[k].c, texts[k])
    {
      if k > 0 {
        assert stack[1..][k - 1] == stack[k] && texts[1..][k - 1] == texts[k];
      }
    }
  }

  lemma PushSource(io: Io, p: nat, c: int, text: seq<byte>, stack: seq<Io>, texts: seq<seq<byte>>)
    requires io.Holds(p, c, text) && Suspended(stack, texts)
    ensures Sources([io] + stack, p, c, [text] + texts)
  {
    assert ([io] + stack)[1..] == stack && ([text] + texts)[1..] == texts;
  }

  lemma ResumeSources(stack: seq<Io>, texts: seq<seq<byte>>, p: nat, c: int)
    requires Suspended(stack, texts)
    requires if stack == [] then c <= 0 else p == stack[0].p && c == stack[0].c
    ensures Sources(stack, p, c, texts)
  {
    if stack != [] {
      forall k | 0 <= k < |stack[1..]|
        ensures stack[1..][k].Holds(stack[1..][k].p, stack[1..][k].c, texts[1..][k])
      {
        assert stack[1..][k] == stack[k + 1] && texts[1..][k] == texts[k + 1];
      }
    }
  }

  lemma TopSource(stack: seq<Io>, p: nat, c: int, texts: seq<seq<byte>>)
    requires Sources(stack, p, c, texts)
    ensures |stack| == |texts| && (stack == [] ==> c <= 0)
    ensures stack != [] ==> stack[0].Holds(p, c, texts[0]) && Suspended(stack[1..], texts[1..])
  {
  }

  lemma BuffersDiffer(all: set<Io>, stack: seq<Io>, io: Io)
    requires BuffersApart(all) && io in all && io !in stack && forall x :: x in stack ==> x in all
    ensures io.b !in set x | x in stack :: x.b
  {
  }

  lemma StackAllocated(all: set<Io>, stack: seq<Io>, free: seq<Io>, reserved: set<Io>)
    requires Partition(all, stack, free, reserved)
    ensures forall x :: x in stack ==> x in all
  {
  }

  lemma BufferSize(all: set<Io>, io: Io)
    requires BuffersApart(all) && io in all
    ensures io.b.Length == BUFSIZ
  {
  }

  /** A byte as a reader of the stream may see it. */
  predicate Delivers(x: byte, c: int) {
    c == x || (x >= 128 && c == x - 256)
  }

  lemma StreamNext(all: seq<byte>, n: nat)
    requires n < |all|
    ensures all[n..] != [] && all[n..][0] == all[n] && all[n..][1..] == all[n + 1..]
    ensures Delivers(all[n], all[n]) && Delivers(all[n], Signed(all[n])) && (all[n] == 255 <==> Signed(all[n]) == EOF)
  {
  }

  class Input {
    var iostack: Io?
    var iofree: Io?
    var ionext: Io?
    var fip: nat
    var fic: int
    var pushdepth: nat
    var peekc: int
    var lineno: int
    ghost var all: set<Io>        // every `Io` allocated so far
    ghost var stack: seq<Io>
    ghost var free: seq<Io>
    ghost var reserved: set<Io>   // `ionext` between `newio` and its push
    ghost var texts: seq<seq<byte>>

    ghost predicate Valid()
      reads this, all, set io | io in all :: io.b
    {
      && Partition(all, stack, free, reserved) && BuffersApart(all)
      && |all| == pushdepth <= MAXPUSH && (reserved != {} ==> ionext != null && reserved == {ionext})
      && Linked(iostack, stack) && Linked(iofree, free)
      && Sources(stack, fip, fic, texts)
    }

    /** The stacked sources and their buffers: all that reading may change. */
    ghost function Owned(): set<object>
      reads this`stack
    {
      (set io: Io | io in stack :: io as object) + (set io: Io | io in stack :: io.b as object)
    }

    lemma OwnsTop()
      requires stack != []
      ensures stack[0] in Owned() && stack[0].b in Owned()
    {
      assert stack[0] in stack;
    }

    /** Everything still to be delivered. */
    ghost function Stream(): seq<byte>
      reads this`texts
    {
      Flat(texts)
    }

    constructor ()
      ensures Valid() && Stream() == [] && stack == [] && reserved == {} && peekc == IGN && lineno == 1
    {
      iostack, iofree, ionext := null, null, null;
      fip, fic, pushdepth := 0, 0, 0;
      peekc, lineno := IGN, 1;
      all, stack, free, reserved, texts := {}, [], [], {}, [];
    }

    /** Reserve the first `Io` of the free list. */
    method Reuse()
      requires Valid() && reserved == {} && free != []
      modifies this`iofree, this`ionext, this`free, this`reserved, free[0]
      ensures Valid() && reserved != {} && ionext.f == None && ionext == old(free[0]) && free == old(free)[1..]
    {
      hide Linked, Sources, Partition, BuffersApart;
      LinkedHead(iofree, free);
      var i := iofree;
      LinkedTail(i, free);
      PartitionTake(all, stack, free);
      iofree := i.link;
      free := free[1..];
      ionext := i;
      i.f := None;
      i.c := 0;
      reserved := {i};
    }

    /** Reserve a new `Io`. */
    method Allocate()
      requires Valid() && reserved == {} && pushdepth < MAXPUSH
      modifies this`ionext, this`pushdepth, this`all, this`reserved
      ensures Valid() && reserved != {} && ionext.f == None && pushdepth == old(pushdepth) + 1
      ensures fresh(ionext) && all == old(all) + {ionext}
    {
      hide Linked, Sources, Partition, BuffersApart;
      pushdepth := pushdepth + 1;
      var i := new Io();
      PartitionGrow(all, stack, free, i);
      BuffersApartGrow(all, i);
      all := all + {i};
      ionext := i;
      reserved := {i};
    }

    /** Take an `Io` from the free list, or allocate one; false is the `too deep` exit. */
    method NewIo() returns (ok: bool)
      requires Valid() && reserved == {}
      modifies this`iofree, this`ionext, this`free, this`pushdepth, this`all, this`reserved, free
      ensures ok <==> old(free) != [] || old(pushdepth) < MAXPUSH
      ensures old(free) != [] ==> ionext == old(free[0]) && free == old(free)[1..] && all == old(all)
      ensures ok && old(free) == [] ==> fresh(ionext) && all == old(all) + {ionext} && pushdepth == old(pushdepth) + 1
      ensures ok ==> Valid() && reserved != {} && ionext.f == None
    {
      hide Linked, Sources, Partition, BuffersApart;
      LinkedHead(iofree, free);
      ok := true;
      if iofree != null {
        Reuse();
      } else if pushdepth + 1 > MAXPUSH {
        ok := false;
      } else {
        Allocate();
      }
    }

    /** Save the read position in the top of the stack; false is the `botch` exit. */
    method PushIo() returns (ok: bool)
      requires Valid()
      modifies stack
      ensures ok <==> stack != []
      ensures Valid() && Linked(iostack, stack)
      ensures ok ==> stack[0].p == fip && stack[0].c == fic
    {
      hide Partition, BuffersApart;
      LinkedHead(iostack, stack);
      var i := iostack;
      if i == null {
        return false;
      }
      i.p := fip;
      i.c := fic;
      ok := true;
    }

    /** Put the reserved `Io` on top and start reading it at `p`. */
    method PushReserved(p: nat, c: int, ghost text: seq<byte>)
      requires Valid() && reserved != {} && ionext.Holds(p, c, text) && Suspended(stack, texts)
      modifies this, ionext`link
      ensures Valid() && reserved == {} && texts == [text] + old(texts)
    {
      hide Linked, Partition, BuffersApart, Suspended, Sources, Io.Holds;
      var i := ionext;
      PartitionPush(all, stack, free, i);
      i.link := iostack;
      LinkedCons(i, stack);
      iostack := i;
      fip := p;
      fic := c;
      PushSource(i, p, c, text, stack, texts);
      stack := [i] + stack;
      texts := [text] + texts;
      reserved := {};
    }

    /**
     Put the reserved `Io` on top, reading from a file that holds `contents`; a file that cannot be
     opened has none, and false is the exit for it.
     */
    method NewFile(contents: Option<seq<byte>>) returns (ok: bool)
      requires Valid() && reserved != {}
      requires stack == [] || (stack[0].p == fip && stack[0].c == fic)
      modifies this, reserved
      ensures ok <==> contents.Some?
      ensures ok ==> Valid() && reserved == {} && texts == [contents.value] + old(texts)
    {
      hide Linked, Partition, BuffersApart, Suspended, Sources;
      if contents.None? {
        return false;
      }
      PartitionPush(all, stack, free, ionext);
      BufferSize(all, ionext);
      SuspendSources(stack, fip, fic, texts);
      ionext.f := contents;
      PushReserved(fip, 0, contents.value);
      ok := true;
    }

    /**
     The macro push: the expansion has been written into the reserved buffer; the
     character the lexer had read ahead goes right behind it.
     */
    method PushExpansion(text: seq<byte>, peekc: int) returns (peek: int)
      requires Valid() && reserved != {} && ionext.f == None
      requires stack == [] || (stack[0].p == fip && stack[0].c == fic)
      requires |text| + 2 <= BUFSIZ
      modifies this, reserved, ionext.b
      ensures Valid() && reserved == {} && peek == IGN
      ensures texts == [text + if peekc == IGN then [] else [Low(peekc)]] + old(texts)
    {
      hide Linked, Partition, BuffersApart, Suspended, Sources;
      PartitionPush(all, stack, free, ionext);
      BufferSize(all, ionext);
      StackAllocated(all, stack, free, reserved);
      BuffersDiffer(all, stack, ionext);
      SuspendSources(stack, fip, fic, texts);
      var n := WriteExpansion(ionext.b, text, peekc);
      peek := IGN;
      ghost var now := text + if peekc == IGN then [] else [Low(peekc)];
      assert ionext.b[..n] == ionext.b[0..n];
      PushReserved(0, n, now);
    }

    /** Move the top of the stack to the free list. */
    method Unlink()
      requires Valid() && stack != []
      modifies this`iostack, this`iofree, this`stack, this`free, this`texts, stack[0]
      ensures Partition(all, stack, free, reserved) && Linked(iostack, stack) && Linked(iofree, free)
      ensures stack == old(stack)[1..] && texts == old(texts)[1..] && Suspended(stack, texts)
    {
      hide Linked, Partition, BuffersApart, Suspended, Sources, Io.Holds;
      LinkedHead(iostack, stack);
      TopSource(stack, fip, fic, texts);
      var i := iostack;
      LinkedTail(i, stack);
      PartitionPop(all, stack, free, reserved);
      iostack := i.link;
      stack := stack[1..];
      texts := texts[1..];
      i.link := iofree;
      LinkedCons(i, free);
      iofree := i;
      free := [i] + free;
    }

    /** Drop the exhausted top and resume the source below it. */
    method Pop()
      requires Valid() && stack != [] && fic <= 0
      modifies this`iostack, this`iofree, this`stack, this`free, this`texts, this`fip, this`fic, stack[0]
      ensures Valid() && stack == old(stack)[1..] && texts == old(texts)[1..]
    {
      hide Linked, Partition, BuffersApart, Suspended, Sources, Io.Holds;
      Unlink();
      LinkedHead(iostack, stack);
      if iostack != null {
        fip := iostack.p;
        fic := iostack.c;
      }
      ResumeSources(stack, texts, fip, fic);
    }

    /** Hand out the next character of the top buffer. */
    method Take() returns (c: byte)
      requires Valid() && stack != [] && fic > 0
      modifies this`fip, this`fic, this`texts
      ensures Valid() && old(texts)[0] != [] && c == old(texts)[0][0]
      ensures texts == old(texts)[0 := old(texts)[0][1..]]
    {
      hide Linked, Partition, BuffersApart, Suspended;
      LinkedHead(iostack, stack);
      TopSource(stack, fip, fic, texts);
      c := iostack.b[fip];
      fip := fip + 1;
      fic := fic - 1;
      ghost var rest := texts[0][1..];
      assert iostack.Holds(fip, fic, rest);
      texts := texts[0 := rest];
      assert texts[1..] == old(texts)[1..];
    }

    /** Read a block of any size from the top's file into its buffer. */
    method ReadBlock()
      requires Valid() && stack != [] && fic <= 0 && stack[0].f.Some? && stack[0].f.value != []
      modifies this`fip, this`fic, stack[0], stack[0].b
      ensures Valid() && fic > 0
    {
      hide Linked, Partition, BuffersApart, Suspended, Sources;
      LinkedHead(iostack, stack);
      TopSource(stack, fip, fic, texts);
      var i := iostack;
      TopApart();
      var file := i.f.value;
      var n: nat :| 1 <= n <= BUFSIZ && n <= |file|;
      forall k | 0 <= k < n {
        i.b[k] := file[k];
      }
      i.f := Some(file[n..]);
      fip := 0;
      fic := n;
      assert i.b[0..n] == file[..n];
      assert file == file[..n] + file[n..];
      assert stack == [i] + stack[1..] && texts == [texts[0]] + texts[1..];
      PushSource(i, 0, n, texts[0], stack[1..], texts[1..]);
    }

    lemma TopApart()
      requires Valid() && stack != []
      ensures stack[0] !in stack[1..] && stack[0].b !in set x | x in stack[1..] :: x.b
      ensures stack[0] !in free && stack[0].b.Length == BUFSIZ
    {
      LinkedTail(stack[0], stack);
      assert forall x :: x in stack[1..] ==> x in stack;
    }

    /** With nothing left in the buffer, the count may fall further below zero. */
    method CountDown()
      requires Valid() && fic <= 0
      modifies this`fic
      ensures Valid() && fic < 0
    {
      hide Linked, Partition, BuffersApart, Suspended;
      fic := fic - 1;
    }

    /** The file of the top, if it has one, is at its end: close it. */
    method Close()
      requires Valid() && stack != [] && fic <= 0 && (stack[0].f.Some? ==> stack[0].f.value == [])
      modifies stack[0]
      ensures Valid() && texts[0] == []
    {
      hide Linked, Partition, BuffersApart, Suspended, Sources;
      LinkedHead(iostack, stack);
      TopSource(stack, fip, fic, texts);
      TopApart();
      iostack.f := None;
      assert stack == [iostack] + stack[1..] && texts == [texts[0]] + texts[1..];
      PushSource(iostack, fip, fic, texts[0], stack[1..], texts[1..]);
    }

    method Deliver() returns (c: byte)
      requires Valid() && stack != [] && fic > 0
      modifies this`fip, this`fic, this`texts
      ensures Valid() && old(Stream()) != [] && c == old(Stream())[0] && Stream() == old(Stream())[1..]
    {
      hide Linked, Partition, BuffersApart, Suspended, Sources;
      TopSource(stack, fip, fic, texts);
      FlatTake(texts);
      c := Take();
    }

    /** Drop a source that has nothing left. */
    method Drop()
      requires Valid() && stack != [] && fic <= 0 && (stack[0].f.Some? ==> stack[0].f.value == [])
      modifies this`iostack, this`iofree, this`stack, this`free, this`texts, this`fip, this`fic, stack[0]
      ensures Valid() && |stack| < |old(stack)| && Stream() == old(Stream()) && Owned() <= old(Owned())
    {
      hide Linked, Partition, BuffersApart, Suspended, Sources, Io.Holds;
      TopSource(stack, fip, fic, texts);
      Close();
      Pop();
      assert forall io :: io in stack ==> io in old(stack);
    }

    method Filbuf() returns (r: int)
      requires Valid() && fic <= 0
      modifies this`iostack, this`iofree, this`stack, this`free, this`texts, this`fip, this`fic
      modifies Owned()
      ensures Valid() && Owned() <= old(Owned())
      ensures old(Stream()) == [] ==> r == EOF && Stream() == []
      ensures old(Stream()) != [] ==> r == Signed(old(Stream())[0]) && Stream() == old(Stream())[1..]
    {
      hide Linked, Partition, BuffersApart, Suspended, Sources, Owned, Flat;
      while true
        invariant Valid() && fic <= 0 && Stream() == old(Stream()) && Owned() <= old(Owned())
        decreases |stack|
      {
        EmptyStack();
        if iostack == null {
          return EOF;
        }
        OwnsTop();
        if iostack.f.Some? && iostack.f.value != [] {
          ReadBlock();
          var c := Deliver();
          return Signed(c);
        }
        Drop();
        EmptyStack();
        if iostack == null {
          return EOF;
        }
        if fic > 0 {
          var c := Deliver();
          return Signed(c);
        }
        CountDown();
      }
    }

    lemma EmptyStack()
      requires Valid()
      ensures iostack == (if stack == [] then null else stack[0]) && (stack == [] ==> Stream() == [])
    {
      LinkedHead(iostack, stack);
    }

    /**
     `GETC()`. The stream's next byte is delivered; only a byte above 127 that comes out of
     `filbuf` is delivered as a negative number, and 255 then looks like the end of input.
     */
    method GETC() returns (r: int)
      requires Valid()
      modifies this`iostack, this`iofree, this`stack, this`free, this`texts, this`fip, this`fic
      modifies Owned()
      ensures Valid()
      ensures Owned() <= old(Owned())
      ensures old(Stream()) == [] ==> r == EOF && Stream() == []
      ensures old(Stream()) != [] ==>
                && Stream() == old(Stream())[1..]
                && r == if old(fic) > 0 then old(Stream())[0] else Signed(old(Stream())[0])
    {
      hide Linked, Partition, BuffersApart, Suspended;
      if fic - 1 < 0 {
        CountDown();
        r := Filbuf();
      } else {
        FlatTake(texts);
        r := Take();
      }
    }

    /**
     Reading to EOF delivers the stream, whatever the block sizes and the nesting: each byte as it
     is or, from 128 up, possibly less 256; and all of it unless a byte 255 is taken for EOF.
     */
    method Drain() returns (out: seq<int>)
      requires Valid()
      modifies this`iostack, this`iofree, this`stack, this`free, this`texts, this`fip, this`fic
      modifies Owned()
      ensures Valid() && |out| <= |old(Stream())|
      ensures forall k :: 0 <= k < |out| ==> Delivers(old(Stream())[k], out[k])
      ensures if |out| == |old(Stream())| then Stream() == []
              else old(Stream())[|out|] == 255 && Stream() == old(Stream())[|out| + 1..]
    {
      hide Linked, Sources, Partition, BuffersApart, Flat, Delivers, Signed;
      out := [];
      ghost var all := Stream();
      while true
        invariant Valid() && |out| <= |all| && Stream() == all[|out|..] && Owned() <= old(Owned())
        invariant forall k :: 0 <= k < |out| ==> Delivers(all[k], out[k])
        decreases |all| - |out|
      {
        ghost var n := |out|;
        if n < |all| {
          StreamNext(all, n);
        }
        var c := GETC();
        if c == EOF {
          return;
        }
        out := out + [c];
      }
    }

    /** `getc`: false is the `End of file` exit. A newline is counted only when it is read from the stream. */
    method GetC() returns (ok: bool, c: int)
      requires Valid()
      modifies this`iostack, this`iofree, this`stack, this`free, this`texts, this`fip, this`fic, this`peekc, this`lineno
      modifies Owned()
      ensures Valid() && peekc == IGN && Owned() <= old(Owned())
      ensures old(peekc) != IGN ==> ok && c == old(peekc) && Stream() == old(Stream()) && lineno == old(lineno)
      ensures old(peekc) == IGN ==> ok == (c != EOF) && lineno == old(lineno) + if c == NEWLINE then 1 else 0
      ensures old(peekc) == IGN && old(Stream()) != [] ==>
                && Stream() == old(Stream())[1..]
                && c == if old(fic) > 0 then old(Stream())[0] else Signed(old(Stream())[0])
    {
      hide Linked, Sources, Partition, BuffersApart, Flat;
      c := peekc;
      ok := true;
      if c != IGN {
        peekc := IGN;
        return;
      }
      c := GETC();
      if c == NEWLINE {
        lineno := lineno + 1;
      }
      if c == EOF {
        ok := false;
      }
    }

    method Unget(c: int)
      modifies this`peekc, this`lineno
      ensures peekc == c && lineno == old(lineno) - if c == NEWLINE then 1 else 0
    {
      peekc := c;
      if c == NEWLINE {
        lineno := lineno - 1;
      }
    }

    /**
     Reading a character, pushing it back and reading it again, as `getsym` followed by any
     reader does: the character is delivered once, but if it is a newline the line it ends is not
     counted. Two bytes out of `filbuf` do worse: 255 ends the assembler, and 254 looks like an
     empty push-back, so it is lost and the next character delivered instead.
     */
    method Reread() returns (ok: bool, c: int)
      requires Valid() && peekc == IGN && Stream() != []
      modifies this`iostack, this`iofree, this`stack, this`free, this`texts, this`fip, this`fic, this`peekc, this`lineno
      modifies Owned()
      ensures Valid()
      ensures old(fic) > 0 || old(Stream())[0] < 254 ==>
                && ok && Delivers(old(Stream())[0], c) && Stream() == old(Stream())[1..] && lineno == old(lineno)
      ensures old(fic) <= 0 && old(Stream())[0] == 255 ==> !ok
      ensures old(fic) <= 0 && old(Stream())[0] == 254 && |old(Stream())| > 1 ==> Stream() == old(Stream())[2..]
    {
      hide Linked, Sources, Partition, BuffersApart, Flat;
      ok, c := GetC();
      if !ok {
        return;
      }
      Unget(c);
      ok, c := GetC();
    }
  }

  /** Taking the first character of the first text takes it from the whole. */
  lemma FlatTake(texts: seq<seq<byte>>)
    requires texts != []
    ensures texts[0] != [] ==>
              && Flat(texts) != [] && Flat(texts)[0] == texts[0][0]
              && Flat(texts[0 := texts[0][1..]]) == Flat(texts)[1..]
  {
    if texts[0] != [] {
      assert texts[0 := texts[0][1..]][1..] == texts[1..];
    }
  }
}
