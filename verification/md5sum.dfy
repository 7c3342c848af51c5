/**
 * The hashing context of md5sum/sha1sum (the TT structure: state[5],
 * oldstate[5], the 64-bit byte count and the 64-byte buffer) and the routines
 * that update it in place: md5_transform, sha1_transform, hash_update and
 * the finalisation, output and wipe at the end of do_hash. Every routine is
 * proved against the value-level functions of Hashing, Md5 and Sha1.
 */
module Md5Sum {
  import opened Bits
  import Md5
  import Sha1
  import opened Hashing

  /**
   * The longest chunk hash_update is proved for: with len at most 2^32 - 64,
   * its unsigned int sums j + len and i + 63 cannot wrap around.
   */
  const MaxUpdate: nat := 0xFFFF_FFC0

  // ---------------------------------------------------------------------------
  // md5_transform's working copy x[4]
  // ---------------------------------------------------------------------------

  /** The MD5 registers a, b, c, d of step i, read out of x[] from slot (-i)&3 on. */
  ghost function Md5Registers(x: seq<bv32>, i: nat): Md5.Registers
    requires |x| == 4
  {
    match i % 4
    case 0 => Md5.Registers(x[0], x[1], x[2], x[3])
    case 1 => Md5.Registers(x[3], x[0], x[1], x[2])
    case 2 => Md5.Registers(x[2], x[3], x[0], x[1])
    case _ => Md5.Registers(x[1], x[2], x[3], x[0])
  }

  /** Writing slot (-i)&3 renames the registers for step i + 1: [d, a', b, c]. */
  lemma Md5RegistersRotate(x: seq<bv32>, i: nat, v: bv32)
    requires |x| == 4
    ensures var r := Md5Registers(x, i);
            Md5Registers(x[(4 - i % 4) % 4 := v], i + 1) == Md5.Registers(r.d, v, r.b, r.c)
  {
    var p := i % 4;
    if p == 0 {
      assert (i + 1) % 4 == 1 && x[0 := v] == [v, x[1], x[2], x[3]];
    } else if p == 1 {
      assert (i + 1) % 4 == 2 && x[3 := v] == [x[0], x[1], x[2], v];
    } else if p == 2 {
      assert (i + 1) % 4 == 3 && x[2 := v] == [x[0], x[1], v, x[3]];
    } else {
      assert (i + 1) % 4 == 0 && x[1 := v] == [x[0], v, x[2], x[3]];
    }
  }

  /** Storing step i's new register in slot (-i)&3 of x[] leaves the registers of step i + 1. */
  lemma Md5StepAgrees(x: seq<bv32>, i: Md5.StepNumber, a: nat, st0: Md5.Registers, m: BlockWords, v: bv32)
    requires |x| == 4 && a == (4 - i % 4) % 4
    requires Md5Registers(x, i) == Md5.Md5Steps(st0, m, i)
    requires v == Md5.Operation(x[a], x[(a + 1) % 4], Md5.Aux(i, x[(a + 1) % 4], x[(a + 2) % 4], x[(a + 3) % 4]),
                                m[Md5.RfcWord(i)], Md5.Md5Table[i], Md5.RfcShift(i))
    ensures Md5Registers(x[a := v], i + 1) == Md5.Md5Steps(st0, m, i + 1)
  {
    Md5RegistersAt(x, i, a);
    Md5.StepsAdvance(st0, m, i, x[a], x[(a + 1) % 4], x[(a + 2) % 4], x[(a + 3) % 4],
                     m[Md5.RfcWord(i)], Md5.Md5Table[i], Md5.RfcShift(i), v);
    Md5RegistersRotate(x, i, v);
  }

  lemma Md5RegistersAtEnd(x: seq<bv32>)
    requires |x| == 4
    ensures Md5Registers(x, 64) == Md5.Registers(x[0], x[1], x[2], x[3])
  {
  }

  lemma Md5RegistersAt(x: seq<bv32>, i: nat, a: nat)
    requires |x| == 4 && a == (4 - i % 4) % 4
    ensures Md5Registers(x, i) == Md5.Registers(x[a], x[(a + 1) % 4], x[(a + 2) % 4], x[(a + 3) % 4])
  {
    if i % 4 == 0 {
      assert a == 0;
    } else if i % 4 == 1 {
      assert a == 3;
    } else if i % 4 == 2 {
      assert a == 2;
    } else {
      assert a == 1;
    }
  }

  /**
   * The branches at the top of md5_transform's loop: the slot a = (-i)&3,
   * the message word `in` and the rotation `rot` of step i are those RFC
   * 1321 lists for operation i.
   */
  method Md5StepParameters(i: Md5.StepNumber) returns (a: nat, word: nat, rot: Shift)
    ensures a == (4 - i % 4) % 4 && word == Md5.RfcWord(i) && rot == Md5.RfcShift(i)
  {
    Md5.Md5ScheduleMatchesRfc();
    var n := i as bv8;
    assert Md5.ScheduleAgrees(i);
    a := Md5.Md5Role(n) as int;
    word := Md5.Md5MessageIndex(n) as int;
    rot := Md5.Md5Rotation(n) as int;
  }

  /** After the 64 steps x[] holds a, b, c, d in order, ready to be added to the state. */
  lemma Md5Added(x: seq<bv32>, st: State, block: Block)
    requires |x| == 4
    requires Md5Registers(x, 64) == Md5.Md5Steps(Md5Part(st), LeWords(block), 64)
    ensures Compress(MD5, st, block) == [Add(st[0], x[0]), Add(st[1], x[1]), Add(st[2], x[2]), Add(st[3], x[3]), st[4]]
  {
    Md5RegistersAtEnd(x);
    Md5CompressWords(st, block, x[0], x[1], x[2], x[3]);
  }

  // ---------------------------------------------------------------------------
  // sha1_transform's role pointers rot[5] and schedule window block[16]
  // ---------------------------------------------------------------------------

  /** The SHA-1 registers a..e after c steps, read through the role pointers. */
  ghost function Sha1Registers(s: seq<bv32>, c: nat): Sha1.Registers
    requires |s| == 5
  {
    var r := Sha1.Roles(c);
    Sha1.Registers(s[r[0]], s[r[1]], s[r[2]], s[r[3]], s[r[4]])
  }

  /**
   * Storing T through rot[4] and rol(b, 30) through rot[1] and then moving
   * the pointers renames the registers for step c + 1: [T, a, rol(b,30), c, d].
   */
  lemma Sha1RegistersRotate(s: seq<bv32>, c: nat, pa: nat, pb: nat, pc: nat, pd: nat, pe: nat, v: bv32, b30: bv32)
    requires |s| == 5 && [pa, pb, pc, pd, pe] == Sha1.Roles(c)
    ensures Sha1Registers(s[pe := v][pb := b30], c + 1) == Sha1.Registers(v, s[pa], b30, s[pc], s[pd])
  {
    Sha1.RolesDistinct(c);
    Sha1.RolesRotate(c);
    Sha1RegistersAt(s[pe := v][pb := b30], c + 1, pe, pa, pb, pc, pd);
  }

  lemma Sha1RegistersAt(s: seq<bv32>, c: nat, pa: nat, pb: nat, pc: nat, pd: nat, pe: nat)
    requires |s| == 5 && [pa, pb, pc, pd, pe] == Sha1.Roles(c)
    ensures Sha1Registers(s, c) == Sha1.Registers(s[pa], s[pb], s[pc], s[pd], s[pe])
  {
  }

  /** On a little-endian host the byte swap of each buffer word gives the big-endian word. */
  lemma HostWordsSwap(block: Block)
    ensures forall t :: 0 <= t < 16 ==> Sha1.SwapHostWord(LeWords(block)[t]) == BeWords(block)[t]
  {
    forall t | 0 <= t < 16
      ensures Sha1.SwapHostWord(LeWords(block)[t]) == BeWords(block)[t]
    {
      Sha1.SwapHostWordIsBigEndian(block[4 * t..4 * t + 4]);
    }
  }

  /**
   * The message schedule as sha1_transform keeps it in its sixteen-word
   * window after `count` steps: every W_t of the last sixteen steps sits at
   * t mod 16, and the words not reached yet are still the host's view of the
   * buffer.
   */
  ghost predicate WindowHolds(window: seq<bv32>, host: seq<bv32>, w: Sha1.Words80, count: nat)
  {
    |window| == 16 && |host| == 16 && count <= 80
    && (forall t :: 0 <= t < count && count <= t + 16 ==> window[t % 16] == w[t])
    && (forall t :: count <= t < 16 ==> window[t] == host[t])
  }

  /**
   * Step count >= 16 of sha1_transform: the word it computes in place from
   * the window is W_count.
   */
  lemma ScheduleWindowStep(window: seq<bv32>, host: seq<bv32>, m: BlockWords, count: nat)
    requires 16 <= count < 80 && WindowHolds(window, host, Sha1.Schedule(m), count)
    ensures Sha1.NextWord(window[(count + 13) % 16], window[(count + 8) % 16], window[(count + 2) % 16],
                          window[count % 16]) == Sha1.Schedule(m)[count]
  {
    var w := Sha1.Schedule(m);
    Sha1.ScheduleIsFips(m, count);
    assert (count + 13) % 16 == (count - 3) % 16 && (count + 8) % 16 == (count - 8) % 16;
    assert (count + 2) % 16 == (count - 14) % 16 && count % 16 == (count - 16) % 16;
    assert window[(count - 3) % 16] == w[count - 3];
    assert window[(count - 8) % 16] == w[count - 8];
    assert window[(count - 14) % 16] == w[count - 14];
    assert window[(count - 16) % 16] == w[count - 16];
  }

  /** Storing W_count at count mod 16 moves the window on by one step. */
  lemma WindowAdvance(window: seq<bv32>, host: seq<bv32>, ws: Sha1.Words80, count: nat, w: bv32)
    requires count < 80 && WindowHolds(window, host, ws, count) && w == ws[count]
    ensures WindowHolds(window[count % 16 := w], host, ws, count + 1)
  {
  }

  /** After the 80 steps the pointers are back in place, so state[] holds a..e in order. */
  lemma Sha1Added(s: seq<bv32>, st: State, block: Block)
    requires |s| == 5
    requires Sha1Registers(s, 80) == Sha1.Sha1Steps(Sha1Part(st), Sha1.Schedule(BeWords(block)), 80)
    ensures Compress(SHA1, st, block) == [Add(s[0], st[0]), Add(s[1], st[1]), Add(s[2], st[2]), Add(s[3], st[3]), Add(s[4], st[4])]
  {
    Sha1.RolesAfterAllSteps();
    Sha1CompressWords(st, block, s[0], s[1], s[2], s[3], s[4]);
  }

  /**
   * Storing T = e + (f + W) + rol(a, 5) + K through rot[4] and rol(b, 30)
   * through rot[1] performs step `count` of the standard on the registers.
   */
  lemma StepStored(s: seq<bv32>, count: nat, pa: nat, pb: nat, pc: nat, pd: nat, pe: nat,
                   a: bv32, b: bv32, c: bv32, d: bv32, e: bv32, round: nat, w: bv32, v: bv32,
                   st0: Sha1.Registers, ws: Sha1.Words80)
    requires |s| == 5 && count < 80 && round == count / 20 && [pa, pb, pc, pd, pe] == Sha1.Roles(count)
    requires s[pa] == a && s[pb] == b && s[pc] == c && s[pd] == d && s[pe] == e && w == ws[count]
    requires Sha1Registers(s, count) == Sha1.Sha1Steps(st0, ws, count)
    requires v == Sha1.Operation(Rol(a, 5), Sha1.FipsF(count, b, c, d), e, Sha1.Sha1K[count / 20], w)
    ensures Sha1Registers(s[pe := v][pb := Rol(b, 30)], count + 1) == Sha1.Sha1Steps(st0, ws, count + 1)
  {
    Sha1RegistersAt(s, count, pa, pb, pc, pd, pe);
    Sha1.StepsAdvance(st0, ws, count, a, b, c, d, e);
    Sha1RegistersRotate(s, count, pa, pb, pc, pd, pe, v, Rol(b, 30));
  }

  class HashContext {
    const state: array<bv32>
    const oldstate: array<bv32>
    var count: uint64
    const buffer: array<bv8>

    ghost predicate Valid()
    {
      state.Length == 5 && oldstate.Length == 5 && buffer.Length == 64 && state != oldstate
      && buffer as object != state && buffer as object != oldstate
    }

    /** The context as a value: state, count and the buffered partial block. */
    ghost function Snapshot(): (acc: Acc)
      reads this, state, buffer
      requires Valid()
      ensures WellFormed(acc)
    {
      Acc(state[..], count, buffer[..count as int % 64])
    }

    /** The TT structure starts out zeroed, as static storage does. */
    constructor ()
      ensures Valid() && fresh(state) && fresh(oldstate) && fresh(buffer)
      ensures state[..] == [0, 0, 0, 0, 0] && oldstate[..] == [0, 0, 0, 0, 0]
      ensures count == 0 && buffer[..] == Zeros(64)
    {
      state := new bv32[5](_ => 0);
      oldstate := new bv32[5](_ => 0);
      buffer := new bv8[64](_ => 0);
      count := 0;
    }

    /** The initialisation at the top of do_hash. */
    method Start()
      requires Valid()
      modifies this, state
      ensures Valid() && Snapshot() == Hashing.Start()
    {
      state[0] := 0x67452301;
      state[1] := 0xEFCDAB89;
      state[2] := 0x98BADCFE;
      state[3] := 0x10325476;
      state[4] := 0xC3D2E1F0;
      count := 0;
    }

    /** md5_transform: mix the full buffer into state[0..4]. */
    method Md5Transform()
      requires Valid()
      modifies state
      ensures state[..] == Compress(MD5, old(state[..]), buffer[..])
    {
      ghost var st: State := state[..];
      ghost var block: Block := buffer[..];
      ghost var st0 := Md5Part(st);
      ghost var m := LeWords(block);
      var x := new bv32[4];
      x[0], x[1], x[2], x[3] := state[0], state[1], state[2], state[3];
      assert Md5Registers(x[..], 0) == st0;
      Md5Rounds(x, st0, m);
      Md5Added(x[..], st, block);
      assert st == old(state[..]) && block == buffer[..];
      Md5AddBack(x);
    }

    /** The 64-step loop of md5_transform. */
    method Md5Rounds(x: array<bv32>, ghost st0: Md5.Registers, ghost m: BlockWords)
      requires Valid() && x.Length == 4 && m == LeWords(buffer[..])
      requires Md5Registers(x[..], 0) == st0
      modifies x
      ensures Md5Registers(x[..], 64) == Md5.Md5Steps(st0, m, 64)
    {
      var i := 0;
      while i < 64
        invariant 0 <= i <= 64
        invariant Md5Registers(x[..], i) == Md5.Md5Steps(st0, m, i)
      {
        Md5Step(x, i, st0, m);
        i := i + 1;
      }
    }

    /** One pass of md5_transform's loop: step i stores its new register in x[(-i)&3]. */
    method Md5Step(x: array<bv32>, i: Md5.StepNumber, ghost st0: Md5.Registers, ghost m: BlockWords)
      requires Valid() && x.Length == 4 && m == LeWords(buffer[..])
      requires Md5Registers(x[..], i) == Md5.Md5Steps(st0, m, i)
      modifies x
      ensures Md5Registers(x[..], i + 1) == Md5.Md5Steps(st0, m, i + 1)
    {
      var a, word, rot := Md5StepParameters(i);
      var xa, xb, xc, xd := x[a], x[(a + 1) % 4], x[(a + 2) % 4], x[(a + 3) % 4];
      var w := LeWordAt(buffer[..], word);
      var v := Md5.Operation(xa, xb, Md5.Aux(i, xb, xc, xd), w, Md5.Md5Table[i], rot);
      ghost var s := x[..];
      Md5StepAgrees(s, i, a, st0, m, v);
      x[a] := v;
      assert x[..] == s[a := v];
    }

    /** Adds each of the four working words back into its state word, mod 2^32; the fifth word is untouched. */
    method Md5AddBack(x: array<bv32>)
      requires Valid() && x.Length == 4
      modifies state
      ensures state[..] == [Add(old(state[0]), x[0]), Add(old(state[1]), x[1]), Add(old(state[2]), x[2]),
                            Add(old(state[3]), x[3]), old(state[4])]
    {
      AddWords(x, 4);
      assert state[..] == [state[0], state[1], state[2], state[3], state[4]];
    }

    /** The closing loops of both transforms: state[i] += src[i] for i < n, mod 2^32. */
    method AddWords(src: array<bv32>, n: nat)
      requires src != state && n <= src.Length && n <= state.Length
      modifies state
      ensures forall k :: 0 <= k < n ==> state[k] == Add(old(state[k]), src[k])
      ensures forall k :: n <= k < state.Length ==> state[k] == old(state[k])
    {
      var i := 0;
      while i < n
        invariant 0 <= i <= n
        invariant forall k :: 0 <= k < i ==> state[k] == Add(old(state[k]), src[k])
        invariant forall k :: i <= k < state.Length ==> state[k] == old(state[k])
      {
        state[i] := Add(state[i], src[i]);
        i := i + 1;
      }
    }

    /** sha1_transform: mix the full buffer into state[0..5], remembering the old state. */
    method Sha1Transform()
      requires Valid()
      modifies state, oldstate
      ensures state[..] == Compress(SHA1, old(state[..]), buffer[..])
      ensures oldstate[..] == old(state[..])
    {
      ghost var st: State := state[..];
      ghost var blk: Block := buffer[..];
      ghost var st0 := Sha1Part(st);
      ghost var m := BeWords(blk);
      ghost var ws := Sha1.Schedule(m);
      ghost var host := LeWords(blk);
      var rot := SaveState();
      var block := HostWords();
      HostWordsSwap(blk);
      assert Sha1Registers(state[..], 0) == st0;
      Sha1Rounds(rot, block, st0, m, ws, host);
      Sha1Added(state[..], st, blk);
      assert st == old(state[..]) && blk == buffer[..];
      Sha1AddBack();
    }

    /** The two nested loops of sha1_transform: 4 rounds of 20 steps. */
    method Sha1Rounds(rot: array<nat>, block: array<bv32>,
                      ghost st0: Sha1.Registers, ghost m: BlockWords, ghost ws: Sha1.Words80, ghost host: seq<bv32>)
      requires Valid() && rot.Length == 5 && rot as object != state
      requires block.Length == 16 && block != state && ws == Sha1.Schedule(m)
      requires WindowHolds(block[..], host, ws, 0)
      requires forall t :: 0 <= t < 16 ==> Sha1.SwapHostWord(host[t]) == m[t]
      requires rot[..] == Sha1.Roles(0)
      requires Sha1Registers(state[..], 0) == st0
      modifies state, rot, block
      ensures Sha1Registers(state[..], 80) == Sha1.Sha1Steps(st0, ws, 80)
    {
      var count := 0;
      var i := 0;
      while i < 4
        invariant 0 <= i <= 4 && count == 20 * i
        invariant rot[..] == Sha1.Roles(count)
        invariant Sha1Registers(state[..], count) == Sha1.Sha1Steps(st0, ws, count)
        invariant WindowHolds(block[..], host, ws, count)
      {
        var j := 0;
        while j < 20
          invariant 0 <= j <= 20 && count == 20 * i + j
          invariant rot[..] == Sha1.Roles(count)
          invariant Sha1Registers(state[..], count) == Sha1.Sha1Steps(st0, ws, count)
          invariant WindowHolds(block[..], host, ws, count)
        {
          var w := ScheduleWord(i, j, count, block, m, ws, host);
          Sha1Step(i, count, w, rot, st0, ws);
          count := count + 1;
          j := j + 1;
        }
        i := i + 1;
      }
    }

    /** The first loop of sha1_transform: saves each state word in oldstate and points role pointer i at state word i. */
    method SaveState() returns (rot: array<nat>)
      requires Valid()
      modifies oldstate
      ensures fresh(rot) && rot[..] == Sha1.Roles(0) && oldstate[..] == state[..]
    {
      rot := new nat[5];
      var i := 0;
      while i < 5
        invariant 0 <= i <= 5
        invariant forall k :: 0 <= k < i ==> oldstate[k] == state[k] && rot[k] == k
      {
        oldstate[i] := state[i];
        rot[i] := i;
        i := i + 1;
      }
      assert rot[..] == Sha1.Roles(0);
    }

    /** The buffer viewed through the union as sixteen host (little-endian) words. */
    method HostWords() returns (block: array<bv32>)
      requires Valid()
      ensures fresh(block) && block[..] == LeWords(buffer[..])
    {
      block := new bv32[16];
      var i := 0;
      while i < 16
        invariant 0 <= i <= 16
        invariant forall k :: 0 <= k < i ==> block[k] == LeWords(buffer[..])[k]
      {
        block[i] := LeWordAt(buffer[..], i);
        i := i + 1;
      }
    }

    /**
     * The register update of one pass of the inner loop of sha1_transform:
     * step `count` (= 20 * round + j) of the 80, adding the schedule word w,
     * through the role pointers.
     */
    method Sha1Step(round: nat, count: nat, w: bv32, rot: array<nat>,
                    ghost st0: Sha1.Registers, ghost ws: Sha1.Words80)
      requires Valid() && rot.Length == 5 && rot as object != state
      requires round < 4 && count < 80 && round == count / 20 && w == ws[count]
      requires rot[..] == Sha1.Roles(count)
      requires Sha1Registers(state[..], count) == Sha1.Sha1Steps(st0, ws, count)
      modifies state, rot
      ensures rot[..] == Sha1.Roles(count + 1)
      ensures Sha1Registers(state[..], count + 1) == Sha1.Sha1Steps(st0, ws, count + 1)
    {
      var pa, pb, pc, pd, pe := rot[0], rot[1], rot[2], rot[3], rot[4];
      assert [pa, pb, pc, pd, pe] == Sha1.Roles(count);
      ghost var s := state[..];
      var a, b, c, d, e := state[pa], state[pb], state[pc], state[pd], state[pe];
      var v := StepValue(round, count, a, b, c, d, e, w);
      StepStored(s, count, pa, pb, pc, pd, pe, a, b, c, d, e, round, w, v, st0, ws);
      state[pe] := v;
      state[pb] := Rol(b, 30);
      assert state[..] == s[pe := v][pb := Rol(b, 30)];
      RotateRoles(rot, count);
    }

    /**
     * The arithmetic of one step: work = the round function of b, c, d;
     * work += the schedule word; the new register is e + work + rol(a, 5) + K.
     */
    static method StepValue(round: nat, count: nat, a: bv32, b: bv32, c: bv32, d: bv32, e: bv32, w: bv32)
      returns (v: bv32)
      requires count < 80 && round == count / 20
      ensures v == Sha1.Operation(Rol(a, 5), Sha1.FipsF(count, b, c, d), e, Sha1.Sha1K[count / 20], w)
    {
      var work := Sha1.Sha1Mix(round, b, c, d);
      Sha1.Sha1MixIsFips(count, b, c, d);
      v := Sha1.Operation(Rol(a, 5), work, e, Sha1.Sha1K[round], w);
    }

    /**
     * The word of the schedule step `count` adds: in the first sixteen steps
     * the buffer word byte-swapped in place, afterwards the next W computed
     * in place in the window.
     */
    static method ScheduleWord(round: nat, j: nat, count: nat, block: array<bv32>,
                               ghost m: BlockWords, ghost ws: Sha1.Words80, ghost host: seq<bv32>) returns (w: bv32)
      requires block.Length == 16 && round < 4 && j < 20 && count == 20 * round + j && ws == Sha1.Schedule(m)
      requires WindowHolds(block[..], host, ws, count)
      requires forall t :: 0 <= t < 16 ==> Sha1.SwapHostWord(host[t]) == m[t]
      modifies block
      ensures w == ws[count]
      ensures WindowHolds(block[..], host, ws, count + 1)
    {
      if round == 0 && j < 16 {
        Sha1.ScheduleIsFips(m, count);
        w := Sha1.SwapHostWord(block[count]);
        WindowAdvance(block[..], host, ws, count, w);
        block[count] := w;
      } else {
        ScheduleWindowStep(block[..], host, m, count);
        w := Sha1.NextWord(block[(count + 13) % 16], block[(count + 8) % 16], block[(count + 2) % 16], block[count % 16]);
        WindowAdvance(block[..], host, ws, count, w);
        block[count % 16] := w;
      }
    }

    /** The k loop of sha1_transform: the last role pointer moves to the front. */
    static method RotateRoles(rot: array<nat>, ghost count: nat)
      requires rot.Length == 5 && rot[..] == Sha1.Roles(count)
      modifies rot
      ensures rot[..] == [old(rot[4])] + old(rot[..4]) == Sha1.Roles(count + 1)
    {
      Sha1.RolesRotate(count);
      var temp := rot[4];
      var k := 4;
      while k > 0
        invariant 0 <= k <= 4
        invariant forall l :: k < l <= 4 ==> rot[l] == old(rot[l - 1])
        invariant forall l :: 0 <= l <= k ==> rot[l] == old(rot[l])
      {
        rot[k] := rot[k - 1];
        k := k - 1;
      }
      rot[0] := temp;
    }

    /** Adds each of the five saved words back into its state word, mod 2^32. */
    method Sha1AddBack()
      requires Valid()
      modifies state
      ensures state[..] == [Add(old(state[0]), oldstate[0]), Add(old(state[1]), oldstate[1]),
                            Add(old(state[2]), oldstate[2]), Add(old(state[3]), oldstate[3]),
                            Add(old(state[4]), oldstate[4])]
    {
      AddWords(oldstate, 5);
      assert state[..] == [state[0], state[1], state[2], state[3], state[4]];
    }

    /** Dispatch to the transform do_hash picked. */
    method Transform(alg: Algorithm)
      requires Valid()
      modifies state, oldstate
      ensures state[..] == Compress(alg, old(state[..]), buffer[..])
    {
      if alg == MD5 {
        Md5Transform();
      } else {
        Sha1Transform();
      }
    }

    /** Copies the bytes into the buffer starting at the offset, leaving the other buffer bytes alone. */
    method CopyIn(offset: nat, bytes: seq<bv8>)
      requires Valid() && offset + |bytes| <= 64
      modifies buffer
      ensures buffer[..] == old(buffer[..offset]) + bytes + old(buffer[offset + |bytes|..])
    {
      forall k | 0 <= k < |bytes| {
        buffer[offset + k] := bytes[k];
      }
    }

    /**
     * hash_update: fill the buffer, transform every time it is full, keep
     * the rest; the context afterwards is Feed of the old context and the data.
     */
    method Update(data: seq<bv8>, alg: Algorithm, ghost transform: TransformFn)
      requires Valid() && |data| <= MaxUpdate && Implements(alg, transform)
      modifies this, state, oldstate, buffer
      ensures Valid() && Snapshot() == Feed(transform, old(Snapshot()), data)
    {
      ghost var acc0 := Snapshot();
      var j := count as int % 64;
      count := AddCount(count, |data|);
      var i := 0;
      if j + |data| > 63 {
        i := FullBlocks(j, data, alg, transform, acc0.state, acc0.tail);
        j := 0;
        CopyIn(j, data[i..]);
        KeptPrefix([], data[i..], buffer[|data| - i..]);
        FeedAcross(transform, acc0, data, i);
      } else {
        CopyIn(j, data[i..]);
        assert data[i..] == data;
        KeptPrefix(acc0.tail, data, buffer[j + |data|..]);
        FeedWithin(transform, acc0, data);
      }
    }

    /**
     * The `if` branch of hash_update: complete the partial block of j bytes,
     * transform it, then transform every further whole block of the data.
     * The result i is where the bytes left over start.
     */
    method FullBlocks(j: nat, data: seq<bv8>, alg: Algorithm, ghost transform: TransformFn,
                      ghost st0: State, ghost tail: seq<bv8>) returns (i: nat)
      requires Valid() && Implements(alg, transform)
      requires j == |tail| && j + |data| > 63 && j < 64 && buffer[..j] == tail && state[..] == st0
      modifies state, oldstate, buffer
      ensures i <= |data| < i + 64 && (j + i) % 64 == 0
      ensures state[..] == Absorb(transform, st0, (tail + data)[..j + i])
    {
      ghost var buffered := tail + data;
      i := 64 - j;
      SliceOfSuffix(tail, data, 0, i);
      assert buffered[..0] == [] && buffer[..j] == buffered[0..j];
      FillAndTransform(j, data[..i], alg, transform, st0, buffered, 0);
      while i + 63 < |data|
        invariant 64 - j <= i <= |data| && (j + i) % 64 == 0
        invariant Valid()
        invariant state[..] == Absorb(transform, st0, buffered[..j + i])
      {
        SliceOfSuffix(tail, data, i, i + 64);
        FillAndTransform(0, data[i..i + 64], alg, transform, st0, buffered, j + i);
        i := i + 64;
      }
    }

    /**
     * memcpy into the buffer at `offset` up to its end, then transform():
     * the block buffered[n..n + 64] is absorbed.
     */
    method FillAndTransform(offset: nat, bytes: seq<bv8>, alg: Algorithm, ghost transform: TransformFn,
                            ghost st0: State, ghost buffered: seq<bv8>, ghost n: nat)
      requires Valid() && Implements(alg, transform)
      requires offset + |bytes| == 64 && n % 64 == 0 && n + 64 <= |buffered|
      requires buffer[..offset] == buffered[n..n + offset] && bytes == buffered[n + offset..n + 64]
      requires state[..] == Absorb(transform, st0, buffered[..n])
      modifies state, oldstate, buffer
      ensures state[..] == Absorb(transform, st0, buffered[..n + 64])
    {
      CopyIn(offset, bytes);
      assert buffer[..] == buffered[n..n + 64];
      AbsorbNext(transform, st0, buffered, n);
      Transform(alg);
    }

    /**
     * The end of do_hash: pad with 0x80 and zeros up to 56 mod 64, store the
     * bit length in the last eight bytes, transform, print, wipe.
     */
    method Finish(alg: Algorithm, ghost transform: TransformFn) returns (hex: string)
      requires Valid() && Implements(alg, transform)
      modifies this, state, oldstate, buffer
      ensures hex == Final(alg, transform, old(Snapshot()))
      ensures Valid() && count == 0
      ensures state[..] == [0, 0, 0, 0, 0] && oldstate[..] == [0, 0, 0, 0, 0] && buffer[..] == Zeros(64)
    {
      ghost var acc0 := Snapshot();
      var bits := LengthBits(alg, count);
      PadMessage(alg, transform);
      ghost var padded := Snapshot();
      FinishState(transform, alg, acc0, padded);
      StoreLength(bits);
      Transform(alg);
      ghost var last := state[..];
      assert last == Absorb(transform, acc0.state, Trailer(alg, acc0));
      hex := FormatDigest(alg);
      FinalOf(alg, transform, acc0, last);
      Wipe();
    }

    /**
     * bits = TT.count << 3, byte-swapped for SHA-1: stored little-endian at
     * buffer[56..64], it is the length field of the algorithm.
     */
    static method LengthBits(alg: Algorithm, count: uint64) returns (bits: bv64)
      ensures LeBytes64(bits) == LengthField(alg, count)
    {
      bits := ((count as int * 8) % TWO_64) as bv64;
      assert bits == BitLength(count);
      if alg == SHA1 {
        Bswap64Bytes(bits);
        bits := Bswap64(bits);
      }
    }

    /**
     * The do-while loop of do_hash: 0x80 and then zeros go through
     * hash_update one byte at a time until 56 bytes of a block are pending.
     */
    method PadMessage(alg: Algorithm, ghost transform: TransformFn)
      requires Valid() && Implements(alg, transform)
      modifies this, state, oldstate, buffer
      ensures Valid() && Snapshot() == Feed(transform, old(Snapshot()), Padding(old(count) as int % 64))
    {
      ghost var acc0 := Snapshot();
      ghost var n0 := count as int % 64;
      var pad: bv8 := 0x80;
      Update([pad], alg, transform);
      pad := 0;
      ghost var zeros := 0;
      assert [0x80] + Zeros(zeros) == [0x80];
      while count as int % 64 != 56
        invariant Valid() && zeros <= ZeroCount(n0)
        invariant count == AddCount(acc0.count, 1 + zeros)
        invariant Snapshot() == Feed(transform, acc0, [0x80] + Zeros(zeros))
        decreases ZeroCount(n0) - zeros
      {
        PadNotDone(acc0.count, zeros);
        ghost var mid := Snapshot();
        Update([pad], alg, transform);
        PadStep(transform, acc0, zeros, mid, Snapshot());
        zeros := zeros + 1;
      }
      PadDone(acc0.count, zeros);
    }

    /** Writes the 64-bit bit count into buffer bytes 56 to 63, least significant byte first. */
    method StoreLength(bits: bv64)
      requires Valid()
      modifies buffer
      ensures buffer[..] == old(buffer[..56]) + LeBytes64(bits)
    {
      var i := 0;
      while i < 8
        invariant 0 <= i <= 8
        invariant buffer[..56] == old(buffer[..56])
        invariant forall k :: 0 <= k < i ==> buffer[56 + k] == LeBytes64(bits)[k]
      {
        var b := LengthByte(bits, i);
        buffer[56 + i] := b;
        i := i + 1;
      }
      assert buffer[..] == old(buffer[..56]) + LeBytes64(bits);
    }

    /** (char)(count >> (8*i)): byte i of the length, least significant first. */
    static method LengthByte(v: bv64, i: nat) returns (b: bv8)
      requires i < 8
      ensures b == LeBytes64(v)[i]
    {
      b := ((v >> (8 * i)) & 0xFF) as bv8;
      // One case per byte, so that each goal has a constant shift.
      if i == 0 {
      } else if i == 1 {
      } else if i == 2 {
      } else if i == 3 {
      } else if i == 4 {
      } else if i == 5 {
      } else if i == 6 {
      } else {
      }
    }

    /** The printf loops of do_hash: the digest bytes as lowercase hex. */
    method FormatDigest(alg: Algorithm) returns (hex: string)
      requires Valid()
      ensures hex == Hex(DigestBytes(alg, state[..]))
    {
      if alg == SHA1 {
        hex := Sha1Hex();
      } else {
        hex := Md5Hex();
      }
    }

    /** The SHA-1 output: twenty bytes, each taken from its state word most significant byte first, as two hex digits. */
    method Sha1Hex() returns (hex: string)
      requires Valid()
      ensures hex == Hex(DigestBytes(SHA1, state[..]))
    {
      ghost var st: State := state[..];
      hex := "";
      var i := 0;
      while i < 20
        invariant 0 <= i <= 20 && hex == Hex(DigestBytes(SHA1, st)[..i])
      {
        Sha1HexStep(st, i);
        var b := WordByte(state[i / 4], i % 4);
        hex := hex + HexByte(b);
        i := i + 1;
      }
      assert DigestBytes(SHA1, st)[..i] == DigestBytes(SHA1, st);
    }

    /** The MD5 output: each of the four state words byte-swapped and printed as eight hex digits. */
    method Md5Hex() returns (hex: string)
      requires Valid()
      ensures hex == Hex(DigestBytes(MD5, state[..]))
    {
      ghost var st: State := state[..];
      hex := "";
      var i := 0;
      while i < 4
        invariant 0 <= i <= 4 && hex == Hex(DigestBytes(MD5, st)[..4 * i])
      {
        Md5HexStep(st, i);
        hex := hex + HexWord(Bswap32(state[i]));
        i := i + 1;
      }
      assert DigestBytes(MD5, st)[..4 * i] == DigestBytes(MD5, st);
    }

    /** Shifting w right by whole bytes and masking to eight bits picks byte j, counting from the most significant. */
    static method WordByte(w: bv32, j: nat) returns (b: bv8)
      requires j < 4
      ensures b == BeBytes(w)[j]
    {
      b := ((w >> ((3 - j) * 8)) & 0xFF) as bv8;
      BeByteAt(w, j);
    }

    /** Zeroes the whole context: state, saved state, count and buffer. */
    method Wipe()
      requires Valid()
      modifies this, state, oldstate, buffer
      ensures Valid() && count == 0
      ensures state[..] == [0, 0, 0, 0, 0] && oldstate[..] == [0, 0, 0, 0, 0] && buffer[..] == Zeros(64)
    {
      forall k | 0 <= k < 5 {
        state[k] := 0;
      }
      forall k | 0 <= k < 5 {
        oldstate[k] := 0;
      }
      forall k | 0 <= k < 64 {
        buffer[k] := 0;
      }
      count := 0;
    }
  }

  /**
   * do_hash on one file, with the reads given as chunks and the selected
   * routine given as `transform`: whatever the chunking, the line printed is
   * the one the concatenated message calls for.
   */
  method HashChunks(alg: Algorithm, ghost transform: TransformFn, chunks: seq<seq<bv8>>) returns (hex: string)
    requires Implements(alg, transform)
    requires forall k :: 0 <= k < |chunks| ==> |chunks[k]| <= MaxUpdate
    ensures hex == Final(alg, transform, Feed(transform, Hashing.Start(), Concat(chunks)))
  {
    var ctx := new HashContext();
    ctx.Start();
    ReadAll(ctx, alg, transform, Hashing.Start(), chunks);
    hex := ctx.Finish(alg, transform);
  }

  /** The read loop of do_hash: hash_update on each chunk read, in order. */
  method ReadAll(ctx: HashContext, alg: Algorithm, ghost transform: TransformFn, ghost acc0: Acc, chunks: seq<seq<bv8>>)
    requires Implements(alg, transform) && ctx.Valid() && ctx.Snapshot() == acc0
    requires forall k :: 0 <= k < |chunks| ==> |chunks[k]| <= MaxUpdate
    modifies ctx, ctx.state, ctx.oldstate, ctx.buffer
    ensures ctx.Valid() && ctx.Snapshot() == Feed(transform, acc0, Concat(chunks))
  {
    var k := 0;
    while k < |chunks|
      invariant 0 <= k <= |chunks|
      invariant ctx.Valid() && ctx.Snapshot() == FeedAll(transform, acc0, chunks[..k])
    {
      FeedAllSnoc(transform, acc0, chunks, k);
      ctx.Update(chunks[k], alg, transform);
      k := k + 1;
    }
    assert chunks[..k] == chunks;
    FeedAllIsFeedConcat(transform, acc0, chunks);
  }

  /** With the routine do_hash selects, the line printed is the digest of the whole file. */
  method HashStream(alg: Algorithm, chunks: seq<seq<bv8>>) returns (hex: string)
    requires forall k :: 0 <= k < |chunks| ==> |chunks[k]| <= MaxUpdate
    ensures hex == Digest(alg, Concat(chunks))
  {
    TransformOfImplements(alg);
    hex := HashChunks(alg, TransformOf(alg), chunks);
  }

  /** One more read is one more update. */
  lemma FeedAllSnoc(transform: TransformFn, acc: Acc, chunks: seq<seq<bv8>>, k: nat)
    requires WellFormed(acc) && k < |chunks|
    ensures FeedAll(transform, acc, chunks[..k + 1]) == Feed(transform, FeedAll(transform, acc, chunks[..k]), chunks[k])
  {
    assert chunks[..k + 1][..k] == chunks[..k];
  }

  /**
   * After the padding loop of do_hash, 56 bytes are pending; the block they
   * form with the length field completes the trailer.
   */
  lemma FinishState(transform: TransformFn, alg: Algorithm, acc: Acc, padded: Acc)
    requires WellFormed(acc)
    requires padded == Feed(transform, acc, Padding(acc.count as int % 64))
    ensures |padded.tail| == 56
    ensures transform(padded.state, padded.tail + LengthField(alg, acc.count))
            == Absorb(transform, acc.state, Trailer(alg, acc))
  {
    var buffered := acc.tail + Padding(acc.count as int % 64);
    var field := LengthField(alg, acc.count);
    var w := Whole(|buffered|);
    SplitLastBlock(buffered, field);
    assert padded.state == Absorb(transform, acc.state, buffered[..w]) && padded.tail == buffered[w..];
    assert Trailer(alg, acc) == buffered + field;
    AbsorbSnoc(transform, acc.state, buffered[..w], buffered[w..] + field);
  }

  /** Bytes 56 short of a whole block, followed by eight more, end in one last block. */
  lemma SplitLastBlock(b: seq<bv8>, f: seq<bv8>)
    requires |b| % 64 == 56 && |f| == 8
    ensures |b[Whole(|b|)..]| == 56 && b + f == b[..Whole(|b|)] + (b[Whole(|b|)..] + f)
  {
  }

  /** The printed line is the hex of the state the trailer is absorbed into. */
  lemma FinalOf(alg: Algorithm, transform: TransformFn, acc: Acc, last: State)
    requires WellFormed(acc) && last == Absorb(transform, acc.state, Trailer(alg, acc))
    ensures Final(alg, transform, acc) == Hex(DigestBytes(alg, last))
  {
  }

  /** One pass of the SHA-1 printf loop prints byte i of the digest. */
  lemma Sha1HexStep(st: State, i: nat)
    requires i < 20
    ensures Hex(DigestBytes(SHA1, st)[..i + 1]) == Hex(DigestBytes(SHA1, st)[..i]) + HexByte(BeBytes(st[i / 4])[i % 4])
  {
    var d := DigestBytes(SHA1, st);
    assert d[i] == BeBytes(st[i / 4])[i % 4];
    assert d[..i + 1] == d[..i] + [d[i]];
    HexSnoc(d[..i], d[i]);
  }

  /** One pass of the MD5 output loop: the byte-swapped word i, in hex, is the hex of digest bytes 4i to 4i + 3. */
  lemma Md5HexStep(st: State, i: nat)
    requires i < 4
    ensures Hex(DigestBytes(MD5, st)[..4 * i + 4]) == Hex(DigestBytes(MD5, st)[..4 * i]) + HexWord(Bswap32(st[i]))
  {
    var d := DigestBytes(MD5, st);
    BswapBytes(st[i]);
    Md5DigestWord(st, i);
    HexAppend(d[..4 * i], d[4 * i..4 * i + 4]);
    assert d[..4 * i + 4] == d[..4 * i] + d[4 * i..4 * i + 4];
  }

  // ---------------------------------------------------------------------------
  // hash_update's bookkeeping on plain byte strings
  // ---------------------------------------------------------------------------

  /** Absorbing up to the next block boundary is one more call of the transform. */
  lemma AbsorbNext(transform: TransformFn, st0: State, buffered: seq<bv8>, n: nat)
    requires n % 64 == 0 && n + 64 <= |buffered|
    ensures Absorb(transform, st0, buffered[..n + 64])
            == transform(Absorb(transform, st0, buffered[..n]), buffered[n..n + 64])
  {
    AbsorbSnoc(transform, st0, buffered[..n], buffered[n..n + 64]);
    assert buffered[..n] + buffered[n..n + 64] == buffered[..n + 64];
  }

  /** The bytes just stored at the front of the buffer are its first |x| + |y| bytes. */
  lemma KeptPrefix(x: seq<bv8>, y: seq<bv8>, z: seq<bv8>)
    ensures (x + y + z)[..|x| + |y|] == x + y
  {
  }

  /** While the count is not 56 mod 64, more zeros are due. */
  lemma PadNotDone(c: uint64, z: nat)
    requires z <= ZeroCount(c as int % 64) && AddCount(c, 1 + z) as int % 64 != 56
    ensures z < ZeroCount(c as int % 64)
  {
  }

  /** The loop stops at the first count that is 56 mod 64: the bytes fed are the padding. */
  lemma PadDone(c: uint64, z: nat)
    requires z <= ZeroCount(c as int % 64) && AddCount(c, 1 + z) as int % 64 == 56
    ensures [0x80] + Zeros(z) == Padding(c as int % 64)
  {
    if z < ZeroCount(c as int % 64) {
      ZeroCountIsLeast(c as int % 64, z);
    }
  }

  /** One more zero byte fed: the padding fed so far grows by that zero. */
  lemma PadStep(transform: TransformFn, acc0: Acc, zeros: nat, mid: Acc, next: Acc)
    requires WellFormed(acc0) && mid == Feed(transform, acc0, [0x80] + Zeros(zeros))
    requires next == Feed(transform, mid, [0])
    ensures next == Feed(transform, acc0, [0x80] + Zeros(zeros + 1))
    ensures next.count == AddCount(acc0.count, 1 + (zeros + 1))
  {
    FeedConcat(transform, acc0, [0x80] + Zeros(zeros), [0]);
    ZerosSnoc(zeros);
  }

  /** One more zero after the 0x80 byte. */
  lemma ZerosSnoc(z: nat)
    ensures [0x80] + Zeros(z) + [0] == [0x80] + Zeros(z + 1)
  {
  }

  /** A slice of the second part of a concatenation, indexed from the whole. */
  lemma SliceOfSuffix(x: seq<bv8>, y: seq<bv8>, a: nat, b: nat)
    requires a <= b <= |y|
    ensures (x + y)[|x| + a..|x| + b] == y[a..b]
  {
  }

  /** When the data completes no block, feeding only appends it to the partial block. */
  lemma FeedWithin(transform: TransformFn, acc: Acc, data: seq<bv8>)
    requires WellFormed(acc) && |acc.tail| + |data| < 64
    ensures Feed(transform, acc, data) == Acc(acc.state, AddCount(acc.count, |data|), acc.tail + data)
  {
    var b := acc.tail + data;
    assert Whole(|b|) == 0 && b[..0] == [] && b[0..] == b;
  }

  /**
   * When the data completes a block, the bytes up to the last block boundary
   * are absorbed and the rest of the data is the new partial block.
   */
  lemma FeedAcross(transform: TransformFn, acc: Acc, data: seq<bv8>, i: nat)
    requires WellFormed(acc) && i <= |data| && (|acc.tail| + i) % 64 == 0 && |data| < i + 64
    ensures Feed(transform, acc, data)
            == Acc(Absorb(transform, acc.state, (acc.tail + data)[..|acc.tail| + i]), AddCount(acc.count, |data|), data[i..])
  {
    var b := acc.tail + data;
    assert Whole(|b|) == |acc.tail| + i;
    assert b[|acc.tail| + i..] == data[i..];
  }
}
