/** BZ2_decompress called again and again: however the input is cut up, and whatever
    the locals that are not saved hold when a call begins, the outcome is that of one
    call that is given all of it. */
module Suspension {
  import opened Bits
  import opened BwtSpec
  import opened BitString
  import opened BitStream
  import opened Parser

  /** The machine between calls: the label, DState and its save area. */
  datatype Machine = Machine(at: Label, f: Fields, save: Saved)

  function Sleep(s: State): Machine {
    Machine(s.at, s.f, Save(s.m))
  }

  function Wake(x: Machine, junk: Junk): State {
    State(x.at, x.f, Restore(x.save, junk))
  }

  /** The save area is where a call finds its locals again. */
  lemma {:induction false} SleepWake(x: Machine, junk: Junk)
    ensures Sleep(Wake(x, junk)) == x
  {
  }

  lemma {:induction false} SameAsleep(s: State, s': State)
    ensures Sleep(s) == Sleep(s') <==> s.Like(s')
  {
  }

  // ------------------------------------------------------- runs of the machine

  /** One call that goes on, its locals live, until it stops or needs more bits than
      there are. */
  ghost function RunLive(s: State, bits: seq<Bit>): (r: (State, seq<Bit>))
    requires s.Valid()
    ensures r.0.Valid()
    decreases |bits|
  {
    if s.at.Stopped() || |bits| < s.Need() then (s, bits)
    else
      s.NeedRange();
      var v := ValueOf(bits[..s.Need()]);
      s.AfterValid(v);
      RunLive(s.After(v), bits[s.Need()..])
  }

  lemma {:induction false} RunStep(s: State, bits: seq<Bit>)
    requires s.Valid() && !s.at.Stopped() && |bits| >= s.Need()
    ensures 1 <= s.Need() <= 20
    ensures var v := ValueOf(bits[..s.Need()]);
      s.After(v).Valid() && RunLive(s, bits) == RunLive(s.After(v), bits[s.Need()..])
  {
    hide State.After, State.Valid;
    s.NeedRange();
    s.AfterValid(ValueOf(bits[..s.Need()]));
  }

  lemma {:induction false} RunStops(s: State, bits: seq<Bit>)
    requires s.Valid() && (s.at.Stopped() || |bits| < s.Need())
    ensures RunLive(s, bits) == (s, bits)
  {
  }

  /** Stopping for want of input and going on, with the locals still live, makes no
      difference. */
  lemma {:induction false} RunResume(s: State, a: seq<Bit>, b: seq<Bit>)
    requires s.Valid()
    ensures var (s1, left) := RunLive(s, a); RunLive(s1, left + b) == RunLive(s, a + b)
    decreases |a|
  {
    hide State.Valid, State.After, State.Need;
    if s.at.Stopped() || |a| < s.Need() {
      RunStops(s, a);
    } else {
      s.NeedRange();
      var n := s.Need();
      RunStep(s, a);
      RunStep(s, a + b);
      assert (a + b)[..n] == a[..n] && (a + b)[n..] == a[n..] + b;
      RunResume(s.After(ValueOf(a[..n])), a[n..], b);
    }
  }

  /** Nor does what the locals that are not saved held at the start. */
  lemma {:induction false} RunSame(s: State, s': State, bits: seq<Bit>)
    requires s.Valid() && Sleep(s) == Sleep(s')
    ensures s'.Valid()
    ensures Sleep(RunLive(s, bits).0) == Sleep(RunLive(s', bits).0) && RunLive(s, bits).1 == RunLive(s', bits).1
    decreases |bits|
  {
    hide State.Valid, State.After, State.Need, State.With, Save;
    SameAsleep(s, s');
    s.LikeWith(s');
    var junk := Junk(s'.m.uc, s'.m.minLen, s'.m.maxLen);
    s.ValidWith(junk);
    s.WithAt(junk);
    if s.at.Stopped() || |bits| < s.Need() {
      RunStops(s, bits);
      RunStops(s', bits);
    } else {
      s.NeedRange();
      RunStep(s, bits);
      RunStep(s', bits);
      var v := ValueOf(bits[..s.Need()]);
      s.Independent(v, junk);
      SameAsleep(s.After(v), s'.After(v));
      RunSame(s.After(v), s'.After(v), bits[s.Need()..]);
    }
  }

  /** From x, one call with these contents of its unsaved locals takes `bits` to x'
      with left over. */
  ghost predicate Leads(x: Machine, junk: Junk, bits: seq<Bit>, x': Machine, left: seq<Bit>) {
    Wake(x, junk).Valid() && Sleep(RunLive(Wake(x, junk), bits).0) == x' && RunLive(Wake(x, junk), bits).1 == left
  }

  lemma {:induction false} LeadsAnyway(x: Machine, j: Junk, k: Junk, bits: seq<Bit>, x': Machine, left: seq<Bit>)
    requires Leads(x, j, bits, x', left)
    ensures Leads(x, k, bits, x', left)
  {
    hide State.Valid, RunLive;
    SleepWake(x, j);
    SleepWake(x, k);
    RunSame(Wake(x, j), Wake(x, k), bits);
  }

  /** Two calls do what one would with all the input. */
  lemma {:induction false} LeadsOn(x: Machine, j: Junk, a: seq<Bit>, x1: Machine, left: seq<Bit>, k: Junk, b: seq<Bit>, x2: Machine, end: seq<Bit>)
    requires Leads(x, j, a, x1, left) && Leads(x1, k, left + b, x2, end)
    ensures Leads(x, j, a + b, x2, end)
  {
    hide State.Valid, RunLive;
    var (s1, rest) := RunLive(Wake(x, j), a);
    RunResume(Wake(x, j), a, b);
    SleepWake(x1, k);
    RunSame(s1, Wake(x1, k), left + b);
  }

  /** Whatever the locals that are not saved hold, a call can go on from x. */
  ghost predicate Sound(x: Machine) {
    forall junk: Junk :: Wake(x, junk).Valid()
  }

  lemma {:induction false} SoundAt(x: Machine, junk: Junk)
    requires Sound(x)
    ensures Wake(x, junk).Valid()
  {
  }

  const EMPTY: Fields := Fields(1, 0, 0, false, 0, seq(16, _ => false), seq(256, _ => false), [], [], [], [], [], [], [], [], [])

  /** The bytes of all the pieces in order. */
  function Joined(pieces: seq<Text>): Text {
    if pieces == [] then [] else Joined(pieces[..|pieces| - 1]) + pieces[|pieces| - 1]
  }

  class Decompressor {
    const reader: BitReader
    var at: Label
    var f: Fields
    var save: Saved

    ghost function Now(): Machine
      reads `at, `f, `save
    {
      Machine(at, f, save)
    }

    ghost predicate Valid()
      reads this, reader
    {
      reader.Valid() && Sound(Now())
    }

    constructor ()
      ensures Valid() && fresh(reader) && reader.Stream() == [] && at == Magic(1)
    {
      reader := new BitReader();
      at, f, save := Magic(1), EMPTY, NOTHING_SAVED;
      new;
      Begun();
    }

    lemma {:induction false} Begun()
      requires Now() == Machine(Magic(1), EMPTY, NOTHING_SAVED) && reader.Valid()
      ensures Valid()
    {
      forall junk: Junk ensures Wake(Now(), junk).Valid() {
        SleepWake(Now(), junk);
      }
    }

    /** BZ2_decompress: restore, resume at the saved label, run until the input is
        used up or the machine stops, and save. */
    method Decompress()
      requires Valid()
      modifies this, reader
      ensures Valid()
      ensures forall junk: Junk :: Leads(old(Now()), junk, old(reader.Stream()), Now(), reader.Stream())
    {
      hide *;
      var junk: Junk := *;
      ghost var x := Now();
      ReaderValid();
      SoundAt(x, junk);
      NowIs();
      if at == Magic(1) {
        save := NOTHING_SAVED;
      }
      var s := State(at, f, Restore(save, junk));
      ValidNow(x, s, junk);
      while !s.at.Stopped()
        invariant reader.Valid() && s.Valid() && Wake(x, junk).Valid()
        invariant RunLive(s, reader.Stream()) == RunLive(Wake(x, junk), old(reader.Stream()))
        decreases |reader.Stream()|
      {
        ghost var bits := reader.Stream();
        s.NeedRange();
        var n := s.Need();
        var got := reader.GetBits(n);
        if got == Starved {
          break;
        }
        RunStep(s, bits);
        s := s.After(got.v);
      }
      RunStops(s, reader.Stream());
      at, f, save := s.at, s.f, Save(s.m);
      NowIs();
      Ended(x, junk, old(reader.Stream()), s, reader.Stream());
    }

    lemma {:induction false} ReaderValid()
      requires Valid()
      ensures reader.Valid() && Sound(Now())
    {
    }

    lemma {:induction false} StillValid(x: Machine)
      requires Now() == x && reader.Valid() && Sound(x)
      ensures Valid()
    {
    }

    lemma {:induction false} NowIs()
      ensures Now() == Machine(at, f, save)
    {
    }

    lemma {:induction false} ValidNow(x: Machine, s: State, junk: Junk)
      requires Wake(x, junk).Valid() && s == State(x.at, x.f, Restore(if x.at == Magic(1) then NOTHING_SAVED else x.save, junk))
      ensures s == Wake(x, junk)
    {
      SleepWake(x, junk);
    }

    lemma {:induction false} Ended(x: Machine, junk: Junk, bits: seq<Bit>, s: State, left: seq<Bit>)
      requires Wake(x, junk).Valid() && RunLive(Wake(x, junk), bits) == (s, left) && s.Valid() && reader.Valid()
      requires Now() == Machine(s.at, s.f, Save(s.m))
      ensures Valid() && forall k: Junk :: Leads(x, k, bits, Now(), left)
    {
      hide State.Valid, RunLive, Restore;
      forall k: Junk ensures Leads(x, k, bits, Now(), left) {
        LeadsAnyway(x, junk, k, bits, Now(), left);
      }
      forall k: Junk ensures Wake(Now(), k).Valid() {
        SleepWake(Now(), k);
        RunSame(s, Wake(Now(), k), []);
      }
    }

    /** Suspension is invisible: however the input is cut into pieces, the machine is
        left as by one call that had all of it, with the same bits unread. */
    method FeedAll(pieces: seq<Text>)
      requires Valid()
      modifies this, reader
      ensures Valid()
      ensures forall junk: Junk ::
        Leads(old(Now()), junk, old(reader.Stream()) + BitsOfText(Joined(pieces)), Now(), reader.Stream())
    {
      hide *;
      ghost var x, bits := Now(), reader.Stream();
      Decompress();
      JoinedNone(pieces, bits);
      for i := 0 to |pieces|
        invariant Valid()
        invariant forall junk: Junk :: Leads(x, junk, bits + BitsOfText(Joined(pieces[..i])), Now(), reader.Stream())
      {
        ghost var x1, left := Now(), reader.Stream();
        ReaderValid();
        reader.Supply(pieces[i]);
        StillValid(x1);
        Decompress();
        JoinedNext(pieces, i, bits);
        ghost var all, x2, end := bits + BitsOfText(Joined(pieces[..i + 1])), Now(), reader.Stream();
        forall junk: Junk ensures Leads(x, junk, all, x2, end) {
          LeadsOn(x, junk, bits + BitsOfText(Joined(pieces[..i])), x1, left, junk, BitsOfText(pieces[i]), x2, end);
        }
      }
      assert pieces[..|pieces|] == pieces;
    }
  }

  lemma {:induction false} JoinedNone(pieces: seq<Text>, bits: seq<Bit>)
    ensures bits + BitsOfText(Joined(pieces[..0])) == bits
  {
  }

  lemma {:induction false} JoinedNext(pieces: seq<Text>, i: nat, bits: seq<Bit>)
    requires i < |pieces|
    ensures bits + BitsOfText(Joined(pieces[..i + 1])) == bits + BitsOfText(Joined(pieces[..i])) + BitsOfText(pieces[i])
  {
    assert pieces[..i + 1][..i] == pieces[..i];
    BitsOfTextAppend(Joined(pieces[..i]), pieces[i]);
  }
}
