/** Signal delivery and sigreturn.

    Delivering a signal pushes the process context, and below it the frame of the system call
    that the handler's return will make, onto the user stack.  The ghost field `frames` lists the
    deliveries that have not returned, the latest last.  What user code does between is a single
    step that may change registers and memory at will, except for the words of pending frames.
 */
module Signals {
  const CTX_LEN: nat := 21
  /** Words of the context: top of the stack, return address, program counter, base of the address space,
      scheduling state. */
  const SP: nat := 13
  const RA: nat := 14
  const PC: nat := 15
  const RBASE: nat := 16
  const STATE: nat := 19
  const MESSAGE_LEN: nat := 8
  /** operation, dest, pm and the message */
  const SYSCALL_FRAME: nat := 3 + MESSAGE_LEN
  /** the same preceded by signum */
  const SIGFRAME: nat := 1 + SYSCALL_FRAME

  const WINIX_SENDREC: int := 0x13370003
  const SYSTEM: int := 0
  const SIGRET: int := 9
  const STATE_RUNNABLE: int := 0
  const STATE_RECEIVING: int := 2
  const SIGABRT: int := 6
  const EINTR: int := -4
  const DONTREPLY: int := -997

  datatype Action = Action(handler: int, mask: int)

  /** A pending delivery: where the context was saved, the context, and the mask then in force; nested once
      another delivery has happened on top. */
  datatype Frame = Frame(at: int, ctx: seq<int>, signum: int, mask: int, nested: bool)

  /** The 32 words that must survive until the handler returns. */
  ghost predicate Stored(m: seq<int>, f: Frame, rbase: int) {
    && |f.ctx| == CTX_LEN && f.ctx[RBASE] == rbase && SYSCALL_FRAME < f.at && f.at + CTX_LEN <= |m|
    && m[f.at..f.at + CTX_LEN] == f.ctx
    && m[f.at - SYSCALL_FRAME] == WINIX_SENDREC && m[f.at - SYSCALL_FRAME + 1] == SYSTEM
    // pm is the virtual address of the message that follows it
    && m[f.at - SYSCALL_FRAME + 2] == f.at - MESSAGE_LEN - rbase
    && m[f.at - MESSAGE_LEN + 1] == SIGRET && m[f.at - MESSAGE_LEN + 2] == f.signum
  }

  /** Later frames lie below earlier ones. */
  ghost predicate Stacked(fs: seq<Frame>) {
    forall i, j :: 0 <= i < j < |fs| ==> fs[j].at + CTX_LEN <= fs[i].at - SYSCALL_FRAME
  }

  ghost predicate AllStored(m: seq<int>, fs: seq<Frame>, rbase: int) {
    && Stacked(fs) && (forall i :: 0 <= i < |fs| ==> Stored(m, fs[i], rbase))
    && forall i :: 0 <= i < |fs| - 1 ==> fs[i].nested
  }

  /** m and n agree on the words of f. */
  ghost predicate Spared(m: seq<int>, n: seq<int>, f: Frame) {
    |m| == |n| && forall a :: f.at - SYSCALL_FRAME <= a < f.at + CTX_LEN && 0 <= a < |m| ==> m[a] == n[a]
  }

  lemma {:induction false} StoredFrame(m: seq<int>, n: seq<int>, f: Frame, rbase: int)
    requires Stored(m, f, rbase) && Spared(m, n, f)
    ensures Stored(n, f, rbase)
  {
    assert n[f.at..f.at + CTX_LEN] == m[f.at..f.at + CTX_LEN];
  }

  lemma {:induction false} AllSpared(m: seq<int>, n: seq<int>, fs: seq<Frame>, rbase: int)
    requires AllStored(m, fs, rbase) && forall i :: 0 <= i < |fs| ==> Spared(m, n, fs[i])
    ensures AllStored(n, fs, rbase)
  {
    forall i | 0 <= i < |fs|
      ensures Stored(n, fs[i], rbase)
    {
      StoredFrame(m, n, fs[i], rbase);
    }
  }

  /** Memory below every pending frame may change. */
  lemma {:induction false} BelowSpares(m: seq<int>, n: seq<int>, fs: seq<Frame>, rbase: int, top: int)
    requires AllStored(m, fs, rbase) && |m| == |n| && (fs != [] ==> top <= fs[|fs| - 1].at - SYSCALL_FRAME)
    requires forall a :: top <= a < |m| && 0 <= a ==> m[a] == n[a]
    ensures AllStored(n, fs, rbase)
  {
    forall i | 0 <= i < |fs|
      ensures Spared(m, n, fs[i])
    {
      assert i < |fs| - 1 ==> fs[|fs| - 1].at + CTX_LEN <= fs[i].at - SYSCALL_FRAME;
    }
    AllSpared(m, n, fs, rbase);
  }

  /** The two copies of build_signal_ctx leave the frame behind. */
  lemma {:induction false} Laid(m: seq<int>, f: Frame, rbase: int, frame: seq<int>)
    requires |f.ctx| == CTX_LEN && f.ctx[RBASE] == rbase && SIGFRAME <= f.at && f.at + CTX_LEN <= |m| && |frame| == SIGFRAME
    requires frame[1] == WINIX_SENDREC && frame[2] == SYSTEM && frame[3] == f.at - MESSAGE_LEN - rbase
    requires frame[5] == SIGRET && frame[6] == f.signum
    requires forall a :: 0 <= a < |m| && f.at <= a < f.at + CTX_LEN ==> m[a] == f.ctx[a - f.at]
    requires forall a :: 0 <= a < |m| && f.at - SIGFRAME <= a < f.at ==> m[a] == frame[a - (f.at - SIGFRAME)]
    ensures Stored(m, f, rbase)
  {
    assert m[f.at..f.at + CTX_LEN] == f.ctx;
  }

  lemma {:induction false} Pushed(m: seq<int>, fs: seq<Frame>, rbase: int, f: Frame)
    requires AllStored(m, fs, rbase) && Stored(m, f, rbase)
    requires fs != [] ==> f.at + CTX_LEN <= fs[|fs| - 1].at - SYSCALL_FRAME
    ensures AllStored(m, Marked(fs) + [f], rbase)
  {
    hide Stored;
    var gs := Marked(fs) + [f];
    forall i | 0 <= i < |gs|
      ensures Stored(m, gs[i], rbase) && gs[i].at == if i < |fs| then fs[i].at else f.at
    {
      if i < |fs| {
        assert gs[i] == if i < |fs| - 1 then fs[i] else fs[i].(nested := true);
        StoredMark(m, fs[i], rbase);
      }
    }
    forall i, j | 0 <= i < j < |gs|
      ensures gs[j].at + CTX_LEN <= gs[i].at - SYSCALL_FRAME
    {
      assert i < |fs| - 1 ==> fs[|fs| - 1].at + CTX_LEN <= fs[i].at - SYSCALL_FRAME;
    }
  }

  lemma {:induction false} StoredMark(m: seq<int>, f: Frame, rbase: int)
    requires Stored(m, f, rbase)
    ensures Stored(m, f.(nested := true), rbase)
  {
  }

  lemma {:induction false} Popped(m: seq<int>, fs: seq<Frame>, rbase: int)
    requires AllStored(m, fs, rbase) && fs != []
    ensures AllStored(m, fs[..|fs| - 1], rbase) && Stored(m, fs[|fs| - 1], rbase) && (|fs| > 1 ==> fs[|fs| - 2].nested)
  {
  }

  /** The context with which the process goes on: the one saved, except that a process that waited for a reply
      now waits for nothing else. */
  function Resumed(ctx: seq<int>): seq<int>
    requires |ctx| == CTX_LEN
  {
    if ctx[STATE] / 2 % 2 == 1 then ctx[STATE := STATE_RECEIVING] else ctx
  }

  // ---------- Masks ----------

  /** The mask in force and the one copy that is kept of it. */
  datatype Masks = Masks(now: int, saved: int)

  function Delivered(m: Masks, mask: int): Masks {
    Masks(mask, m.now)
  }

  function Returned(m: Masks): Masks {
    Masks(m.saved, m.saved)
  }

  /** A handler that ran to completion: its mask, and the handlers that interrupted it, in order, each of which
      may have been interrupted itself. */
  datatype Run = Run(mask: int, inner: seq<Run>)

  function AfterHandler(m: Masks, r: Run): Masks
    decreases r, 0
  {
    Returned(AfterAll(Delivered(m, r.mask), r.inner))
  }

  function AfterAll(m: Masks, rs: seq<Run>): Masks
    decreases rs, 1
  {
    if rs == [] then m else AfterAll(AfterHandler(m, rs[0]), rs[1..])
  }

  /** The last of the handlers that was itself interrupted, or -1. */
  function LastInterrupted(rs: seq<Run>): (k: int)
    ensures -1 <= k < |rs| && (k >= 0 ==> rs[k].inner != []) && forall j :: k < j < |rs| ==> rs[j].inner == []
    decreases |rs|
  {
    if rs == [] then -1
    else if rs[|rs| - 1].inner != [] then |rs| - 1
    else LastInterrupted(rs[..|rs| - 1])
  }

  /** The mask that survives among handlers under mask x: that of the handler reached by going, again and again, to the last one
      that was itself interrupted. */
  function Survivor(x: int, rs: seq<Run>): int
    decreases rs
  {
    var k := LastInterrupted(rs);
    if k == -1 then x else Survivor(rs[k].mask, rs[k].inner)
  }

  /** There is one saved mask only: a handler's return restores the mask, whatever the depth of nesting, exactly if the handler was
      not interrupted, or if the mask that survives inside it happens to be the right one. */
  lemma {:induction false} MaskRestoredIff(m: Masks, r: Run)
    ensures AfterHandler(m, r).now == m.now <==> r.inner == [] || Survivor(r.mask, r.inner) == m.now
  {
    HandlerLeaves(m, r);
  }

  lemma {:induction false} HandlerLeaves(m: Masks, r: Run)
    ensures var x := if r.inner == [] then m.now else Survivor(r.mask, r.inner); AfterHandler(m, r) == Masks(x, x)
    decreases r, 0
  {
    if r.inner != [] {
      HandlersLeave(Delivered(m, r.mask), r.inner);
    }
  }

  lemma {:induction false} HandlersLeave(m: Masks, rs: seq<Run>)
    requires rs != []
    ensures AfterAll(m, rs) == Masks(Survivor(m.now, rs), Survivor(m.now, rs))
    decreases rs, 1
  {
    var r := rs[|rs| - 1];
    var init := rs[..|rs| - 1];
    assert rs == init + [r];
    AfterSnoc(m, init, r);
    SurvivorSnoc(m.now, init, r);
    if init != [] {
      HandlersLeave(m, init);
    }
    HandlerLeaves(AfterAll(m, init), r);
  }

  lemma {:induction false} SurvivorSnoc(x: int, rs: seq<Run>, r: Run)
    ensures Survivor(x, rs + [r]) == if r.inner != [] then Survivor(r.mask, r.inner) else Survivor(x, rs)
  {
    assert (rs + [r])[..|rs|] == rs;
  }

  lemma {:induction false} AfterSnoc(m: Masks, rs: seq<Run>, r: Run)
    ensures AfterAll(m, rs + [r]) == AfterHandler(AfterAll(m, rs), r)
    decreases |rs|
  {
    if rs == [] {
      assert [r][1..] == [];
    } else {
      assert (rs + [r])[1..] == rs[1..] + [r];
      AfterSnoc(AfterHandler(m, rs[0]), rs[1..], r);
    }
  }

  /** Three deep, a handler that keeps the mask may lose it, and one that changes it may find it restored. */
  lemma {:induction false} ThreeDeep(m: Masks, sa: int, a: int, b: int)
    requires a != m.now
    ensures AfterHandler(m, Run(m.now, [Run(a, [Run(b, [])])])).now == a != m.now
    ensures AfterHandler(m, Run(sa, [Run(m.now, [Run(b, [])])])).now == m.now
  {
    ChainSurvivor(m.now, a, b);
    ChainSurvivor(sa, m.now, b);
    HandlerLeaves(m, Run(m.now, [Run(a, [Run(b, [])])]));
    HandlerLeaves(m, Run(sa, [Run(m.now, [Run(b, [])])]));
  }

  lemma {:induction false} ChainSurvivor(x: int, a: int, b: int)
    ensures Survivor(x, [Run(a, [Run(b, [])])]) == a
  {
    var leaf := Run(b, []);
    var rs := [Run(a, [leaf])];
    assert LastInterrupted(rs) == 0;
    assert LastInterrupted([leaf]) == -1;
  }

  /** The registers with which a handler starts, above the frame that was pushed. */
  function Entered(ctx: seq<int>, handler: int, restorer: int): (r: seq<int>)
    requires |ctx| == CTX_LEN
    ensures |r| == CTX_LEN
  {
    ctx[SP := ctx[SP] - CTX_LEN - SIGFRAME][PC := handler][RA := restorer][STATE := STATE_RUNNABLE]
  }

  class Process {
    var ctx: seq<int>
    const ram: array<int>
    const rbase: int
    const restorer: int
    var sigMask: int
    var sigMask2: int
    var actions: seq<Action>
    var pending: set<int>
    ghost var frames: seq<Frame>

    ghost predicate Valid()
      reads this, ram
    {
      && |ctx| == CTX_LEN && ctx[RBASE] == rbase && AllStored(ram[..], frames, rbase)
      && (frames != [] && !frames[|frames| - 1].nested ==> sigMask2 == frames[|frames| - 1].mask)
    }

    constructor (ctx: seq<int>, ram: array<int>, restorer: int, mask: int, actions: seq<Action>)
      requires |ctx| == CTX_LEN
      ensures Valid() && frames == [] && this.ctx == ctx && this.ram == ram
    {
      this.ctx, this.ram, this.rbase, this.restorer := ctx, ram, ctx[RBASE], restorer;
      sigMask, sigMask2, this.actions, pending, frames := mask, 0, actions, {}, [];
    }

    /** copyto_user_stack. */
    method CopyToUserStack(src: seq<int>)
      requires |ctx| == CTX_LEN && |src| <= ctx[SP] + rbase <= ram.Length
      modifies `ctx, ram
      ensures ctx == old(ctx)[SP := old(ctx)[SP] - |src|]
      ensures var p := old(ctx)[SP] + rbase - |src|;
        forall a :: 0 <= a < ram.Length ==> ram[a] == if p <= a < p + |src| then src[a - p] else old(ram[a])
    {
      var sp := ctx[SP] + rbase - |src|;
      for i := 0 to |src|
        invariant ctx == old(ctx)
        invariant forall a :: 0 <= a < ram.Length ==> ram[a] == if sp <= a < sp + i then src[a - sp] else old(ram[a])
      {
        ram[sp + i] := src[i];
      }
      ctx := ctx[SP := sp - rbase];
    }

    /** What user code does: it leaves the frames of pending deliveries alone. */
    method UserRuns(regs: seq<int>, image: seq<int>)
      requires Valid() && |regs| == CTX_LEN && regs[RBASE] == rbase && |image| == ram.Length
      requires forall i :: 0 <= i < |frames| ==> Spared(ram[..], image, frames[i])
      modifies `ctx, ram
      ensures Valid() && ctx == regs && ram[..] == image
    {
      hide AllStored;
      AllSpared(ram[..], image, frames, rbase);
      for i := 0 to ram.Length
        invariant ram[..i] == image[..i] && ctx == old(ctx)
      {
        ram[i] := image[i];
      }
      assert ram[..] == image;
      ctx := regs;
    }

    /** build_signal_ctx; junk is what the uninitialised words of the message hold. */
    method BuildSignalCtx(signum: int, junk: seq<int>)
      requires Valid() && 0 <= signum < |actions| && |junk| == MESSAGE_LEN
      requires CTX_LEN + SIGFRAME <= ctx[SP] + rbase <= ram.Length
      requires frames != [] ==> ctx[SP] + rbase <= frames[|frames| - 1].at - SYSCALL_FRAME
      modifies `ctx, `sigMask, `sigMask2, `frames, ram
      ensures Valid()
      ensures frames == Marked(old(frames)) + [Frame(old(ctx)[SP] + rbase - CTX_LEN, old(ctx), signum, old(sigMask), false)]
      ensures ctx == Entered(old(ctx), actions[signum].handler, restorer)
      // The handler runs with the other registers as they were, below the frame, and returns to the restorer.
      ensures ctx[PC] == actions[signum].handler && ctx[RA] == restorer && ctx[SP] == old(ctx)[SP] - CTX_LEN - SIGFRAME
      ensures ctx[STATE] == STATE_RUNNABLE && forall k :: 0 <= k < CTX_LEN && k !in {PC, RA, SP, STATE} ==> ctx[k] == old(ctx)[k]
      ensures sigMask == actions[signum].mask && sigMask2 == old(sigMask)
      ensures var sp := old(ctx)[SP] + rbase;
        && ram[sp - CTX_LEN - SIGFRAME] == signum
        && forall a :: 0 <= a < ram.Length && !(sp - CTX_LEN - SIGFRAME <= a < sp) ==> ram[a] == old(ram[a])
      ensures Masks(sigMask, sigMask2) == Delivered(Masks(old(sigMask), old(sigMask2)), actions[signum].mask)
    {
      hide AllStored, Stored;
      ghost var at := ctx[SP] + rbase - CTX_LEN;
      ghost var f := Frame(at, ctx, signum, sigMask, false);
      PushFrame(signum, junk, f);
      ctx := ctx[PC := actions[signum].handler];
      ctx := ctx[RA := restorer];
      sigMask2 := sigMask;
      sigMask := actions[signum].mask;
      ctx := ctx[STATE := STATE_RUNNABLE];
      frames := Marked(frames) + [f];
    }

    /** The two copies of build_signal_ctx. */
    method PushFrame(signum: int, junk: seq<int>, ghost f: Frame)
      requires Valid() && |junk| == MESSAGE_LEN && CTX_LEN + SIGFRAME <= ctx[SP] + rbase <= ram.Length
      requires frames != [] ==> ctx[SP] + rbase <= frames[|frames| - 1].at - SYSCALL_FRAME
      requires f == Frame(ctx[SP] + rbase - CTX_LEN, ctx, signum, sigMask, false)
      modifies `ctx, ram
      ensures AllStored(ram[..], Marked(frames) + [f], rbase)
      ensures ctx == old(ctx)[SP := old(ctx)[SP] - CTX_LEN - SIGFRAME] && ram[f.at - SIGFRAME] == signum
      ensures forall a :: 0 <= a < ram.Length && !(f.at - SIGFRAME <= a < f.at + CTX_LEN) ==> ram[a] == old(ram[a])
    {
      hide AllStored, Stored, Marked;
      ghost var m0 := ram[..];
      CopyToUserStack(ctx);
      var pm := ctx[SP] - MESSAGE_LEN;
      var message := junk[2 := signum][1 := SIGRET];
      var frame := [signum, WINIX_SENDREC, SYSTEM, pm] + message;
      CopyToUserStack(frame);
      Laid(ram[..], f, rbase, frame);
      BelowSpares(m0, ram[..], frames, rbase, f.at + CTX_LEN);
      Pushed(ram[..], frames, rbase, f);
    }

    /** __sigreturn, entered when the handler returns with the stack as it found it: signum is popped, and what is
        then on top of the stack is the frame of a sigreturn system call for this signal. */
    method Restorer()
      requires Valid() && frames != [] && ctx[SP] + rbase == frames[|frames| - 1].at - SIGFRAME
      modifies `ctx
      ensures Valid() && ctx == old(ctx)[SP := old(ctx)[SP] + 1]
      ensures var sp := ctx[SP] + rbase; var pm := ram[sp + 2] + rbase;
        && sp == frames[|frames| - 1].at - SYSCALL_FRAME && ram[sp] == WINIX_SENDREC && ram[sp + 1] == SYSTEM
        && pm == sp + 3 && ram[pm + 1] == SIGRET && ram[pm + 2] == frames[|frames| - 1].signum
    {
      hide AllStored;
      Popped(ram[..], frames, rbase);
      ctx := ctx[SP := ctx[SP] + 1];
    }

    /** do_sigreturn, with the stack as __sigreturn leaves it: the context of the matching delivery comes back,
        whatever was delivered and returned in between.  The mask that comes back is the one saved last. */
    method DoSigreturn(signum: int) returns (r: int)
      requires Valid() && frames != [] && ctx[SP] + rbase == frames[|frames| - 1].at - SYSCALL_FRAME
      modifies `ctx, `sigMask, `actions, `pending, `frames
      ensures var f := old(frames)[|old(frames)| - 1];
        && |f.ctx| == CTX_LEN && ctx == Resumed(f.ctx) && frames == old(frames)[..|old(frames)| - 1]
        && (!f.nested ==> sigMask == f.mask)
        // Every word of the context comes back; only a process that waited for a reply now waits for nothing else.
        && (forall k :: 0 <= k < CTX_LEN && k != STATE ==> ctx[k] == f.ctx[k])
        && ctx[STATE] == (if f.ctx[STATE] / 2 % 2 == 1 then STATE_RECEIVING else f.ctx[STATE])
        && (r == EINTR <==> f.ctx[STATE] / 2 % 2 == 1) && r in {EINTR, DONTREPLY}
      ensures sigMask == old(sigMask2) && sigMask2 == old(sigMask2)
      ensures Valid() && Masks(sigMask, sigMask2) == Returned(Masks(old(sigMask), old(sigMask2)))
      ensures r == if ctx[STATE] == STATE_RECEIVING then EINTR else DONTREPLY
      ensures actions ==
        if signum == SIGABRT && SIGABRT < |old(actions)| then old(actions)[SIGABRT := old(actions)[SIGABRT].(handler := 0)]
        else old(actions)
      ensures pending == old(pending) + if signum == SIGABRT then {SIGABRT} else {}
    {
      hide AllStored;
      Popped(ram[..], frames, rbase);
      var sp := ctx[SP] + rbase + SYSCALL_FRAME;
      ctx := ram[sp..sp + CTX_LEN];
      sigMask := sigMask2;
      frames := frames[..|frames| - 1];
      if signum == SIGABRT {
        if SIGABRT < |actions| {
          actions := actions[SIGABRT := actions[SIGABRT].(handler := 0)];
        }
        // send_sig: with the default handler the signal becomes pending, whether it is blocked or not.
        pending := pending + {SIGABRT};
      }
      if ctx[STATE] / 2 % 2 == 1 {
        ctx := ctx[STATE := STATE_RECEIVING];
        return EINTR;
      }
      return DONTREPLY;
    }
  }

  /** The frames once another delivery has come on top. */
  ghost function Marked(fs: seq<Frame>): (r: seq<Frame>)
    ensures |r| == |fs|
  {
    if fs == [] then [] else fs[|fs| - 1 := fs[|fs| - 1].(nested := true)]
  }
}
