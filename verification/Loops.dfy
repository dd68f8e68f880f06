/** The loops of `VM::optimize` and `VM::verifyJumpDest`, working in place on the code buffer. */
module Loops {
  import opened Words
  import opened Instructions
  import opened Machine
  import opened Code

  /** The first loop has reached `pc`: what lies before is disabled where it has to be. */
  ghost predicate Scanned(s: Bytes, code: Bytes, pc: nat, dests: seq<nat>)
  {
    && |s| == |code| + PADDING && Boundary(code, pc)
    && (forall i :: 0 <= i < |code| && i < pc ==> s[i] == Sanitized(code)[i])
    && (forall i :: pc <= i < |code| ==> s[i] == code[i])
    && (forall i :: |code| <= i < |s| ==> s[i] == 0)
    && dests + DestsFrom(code, pc) == DestsFrom(code, 0)
  }

  lemma DestsNext(code: Bytes, pc: nat, dests: seq<nat>, dests': seq<nat>)
    requires pc < |code| && dests' == if code[pc] == JUMPDEST then dests + [pc] else dests
    ensures dests + DestsFrom(code, pc) == dests' + DestsFrom(code, NextPc(code, pc))
  {
  }

  /** The byte at an instruction boundary is disabled exactly if it is synthetic. */
  lemma SanitizedAt(code: Bytes, pc: nat)
    requires Boundary(code, pc) && pc < |code|
    ensures Sanitized(code)[pc] == if Synthetic(code[pc]) then UNDEFINED else code[pc]
  {
  }

  lemma ScannedNext(s: Bytes, code: Bytes, pc: nat, dests: seq<nat>, t: Bytes, dests': seq<nat>)
    requires Scanned(s, code, pc, dests) && pc < |code|
    requires t == if Synthetic(code[pc]) then s[pc := UNDEFINED] else s
    requires dests' == if code[pc] == JUMPDEST then dests + [pc] else dests
    ensures Scanned(t, code, NextPc(code, pc), dests')
  {
    DestsNext(code, pc, dests, dests');
    PushDataKept(code, pc);
    SanitizedAt(code, pc);
    forall i | 0 <= i < |code| && i < NextPc(code, pc) ensures t[i] == Sanitized(code)[i]
    {
      if i > pc { assert t[i] == code[i]; }
    }
  }

  lemma ScannedAll(s: Bytes, code: Bytes, pc: nat, dests: seq<nat>)
    requires Scanned(s, code, pc, dests) && pc >= |code|
    ensures s == Prepared(code) && dests == DestsFrom(code, 0)
  {
  }

  /** First loop of `optimize`: collect the JUMPDEST table and disable synthetic opcodes. */
  method BuildTable(a: array<Byte>, ghost code: Bytes) returns (dests: seq<nat>)
    requires a[..] == code + Zeros(PADDING)
    modifies a
    ensures a[..] == Prepared(code)
    ensures dests == DestsFrom(code, 0)
  {
    var size := a.Length - PADDING;
    dests := [];
    var pc := 0;
    while pc < size
      invariant a.Length == |code| + PADDING && size == |code| && Scanned(a[..], code, pc, dests)
    {
      pc, dests := ScanOne(a, pc, dests, code);
    }
    ScannedAll(a[..], code, pc, dests);
  }

  /** The body of the first loop. */
  method ScanOne(a: array<Byte>, pc: nat, dests: seq<nat>, ghost code: Bytes) returns (pc': nat, dests': seq<nat>)
    requires a.Length == |code| + PADDING && pc < |code| && Scanned(a[..], code, pc, dests)
    modifies a
    ensures pc < pc' && Scanned(a[..], code, pc', dests')
  {
    var op := a[pc];
    ghost var s := a[..];
    dests' := dests;
    pc' := pc;
    if op == PUSHC || op == JUMPC || op == JUMPCI {
      a[pc] := UNDEFINED;
    }
    if op == JUMPDEST {
      dests' := dests + [pc];
    } else if PUSH1 <= op <= PUSH32 {
      pc' := pc + (op - PUSH1 + 1);
    }
    pc' := pc' + 1;
    ScannedNext(s, code, pc, dests, a[..], dests');
  }

  /** Overwrite a long PUSH with PUSHC, its pool offset and the count of remaining bytes. */
  method StashPush(a: array<Byte>, pc: nat, n: nat, offset: nat)
    requires 5 < n <= 32 && pc + n < a.Length && offset < POOL_LIMIT
    modifies a
    ensures a[..] == Pooled(old(a[..]), pc, n, offset)
  {
    a[pc] := PUSHC;
    a[pc + 3] := n - 2;
    a[pc + 2] := offset % 256;
    a[pc + 1] := offset / 256;
  }

  /** Overwrite a JUMP or JUMPI to a verified constant with its direct form. */
  method MakeDirect(a: array<Byte>, i: nat, val: Word, dests: seq<nat>)
    requires i < a.Length && Increasing(dests)
    modifies a
    ensures a[..] == Direct(old(a[..]), i, val, dests)
  {
    if a[i] == JUMP {
      var d := VerifyJumpDest(dests, val);
      if 0 <= d { a[i] := JUMPC; }
    } else if a[i] == JUMPI {
      var d := VerifyJumpDest(dests, val);
      if 0 <= d { a[i] := JUMPCI; }
    }
  }

  /** The body of the second loop at a PUSH. */
  method RewritePush(a: array<Byte>, pc: nat, pool: seq<Word>, dests: seq<nat>, ghost s: Bytes)
    returns (pool': seq<Word>)
    requires pc + 33 < a.Length && PushLength(a[pc]) > 0 && Increasing(dests) && a[..] == s
    modifies a
    ensures a[..] == Rewrite(s, pc, pool, dests)
    ensures pool' == PoolAfter(s, pc, pool)
  {
    var n := a[pc] - PUSH1 + 1;
    var val := DecodePush(a, pc, n);
    pool' := pool;
    if 5 < n {
      pool' := pool + [val];
      StashPush(a, pc, n, |pool| % POOL_LIMIT);
    }
    MakeDirect(a, pc + n + 1, val, dests);
  }

  /** Second loop of `optimize`: the constant pool and the direct jumps. */
  method FirstPass(a: array<Byte>, size: nat, dests: seq<nat>, ghost start: Bytes) returns (pool: seq<Word>)
    requires a[..] == start && |start| == size + PADDING && Increasing(dests)
    modifies a
    ensures (a[..], pool) == Optimized(start, size, 0, [], dests)
  {
    pool := [];
    var pc := 0;
    ghost var s := start;
    while pc < size
      invariant a[..] == s && |s| == size + PADDING
      invariant Optimized(s, size, pc, pool, dests) == Optimized(start, size, 0, [], dests)
    {
      pc, pool, s := Round(a, size, pc, pool, dests, s);
    }
  }

  /** One round: what remains of the pass is unchanged. */
  method Round(a: array<Byte>, size: nat, pc: nat, pool: seq<Word>, dests: seq<nat>, ghost s: Bytes)
    returns (pc': nat, pool': seq<Word>, ghost t: Bytes)
    requires a[..] == s && |s| == size + PADDING && pc < size && Increasing(dests)
    modifies a
    ensures a[..] == t && |t| == size + PADDING && pc < pc'
    ensures Optimized(t, size, pc', pool', dests) == Optimized(s, size, pc, pool, dests)
  {
    var op := a[pc];
    pc' := pc + PushLength(op) + 1;
    if PUSH1 <= op <= PUSH32 {
      pool', t := RoundPush(a, size, pc, pool, dests, s);
    } else {
      pool', t := pool, s;
      UnrollPlain(s, size, pc, pool, dests);
    }
  }

  method RoundPush(a: array<Byte>, size: nat, pc: nat, pool: seq<Word>, dests: seq<nat>, ghost s: Bytes)
    returns (pool': seq<Word>, ghost t: Bytes)
    requires a[..] == s && |s| == size + PADDING && pc < size && Increasing(dests) && PushLength(s[pc]) > 0
    modifies a
    ensures a[..] == t && |t| == size + PADDING
    ensures Optimized(t, size, pc + PushLength(s[pc]) + 1, pool', dests) == Optimized(s, size, pc, pool, dests)
  {
    t := Rewrite(s, pc, pool, dests);
    Unroll(s, size, pc, pool, dests);
    pool' := RewritePush(a, pc, pool, dests, s);
  }

  /** The inner decoding loop: most significant byte first. */
  method DecodePush(a: array<Byte>, pc: nat, n: nat) returns (val: Word)
    requires 0 < n <= 32 && pc + n < a.Length
    ensures val == PushedAt(a[..], pc, n)
  {
    ghost var s := a[..];
    var v: nat := a[pc + 1];
    var i := pc + 2;
    assert BEAt(s, pc + 1, 0) == 0;
    while i < pc + 1 + n
      invariant pc + 2 <= i <= pc + 1 + n
      invariant v == BEAt(s, pc + 1, i - pc - 1)
    {
      v := v * 256 + a[i];
      i := i + 1;
    }
    assert v == PushedAt(s, pc, n);
    val := v;
  }

  /** `std::binary_search` on the table. */
  method BinarySearch(table: seq<nat>, x: nat) returns (found: bool)
    requires Increasing(table)
    ensures found <==> x in table
  {
    var lo, hi := 0, |table|;
    while lo < hi
      invariant 0 <= lo <= hi <= |table|
      invariant forall i :: 0 <= i < lo ==> table[i] < x
      invariant forall i :: hi <= i < |table| ==> x <= table[i]
    {
      var mid := (lo + hi) / 2;
      if table[mid] < x { lo := mid + 1; } else { hi := mid; }
    }
    found := lo < |table| && table[lo] == x;
  }

  /** `verifyJumpDest` without the throw: the destination, or -1. */
  method VerifyJumpDest(dests: seq<nat>, dest: Word) returns (r: int)
    requires Increasing(dests)
    ensures r == if Verified(dests, dest) then dest else -1
  {
    r := -1;
    if dest <= INT63_MAX {
      var found := BinarySearch(dests, dest);
      if found { r := dest; }
    }
  }

  /** A jump check on the table of a code accepts a 256-bit destination exactly when it is a
      JUMPDEST at an instruction boundary. */
  method CheckJump(code: Bytes, dests: seq<nat>, dest: Word) returns (ok: bool)
    requires dests == DestsFrom(code, 0) && |code| <= TWO_63
    ensures ok <==> IsDest(code, dest)
  {
    DestsExact(code);
    var r := VerifyJumpDest(dests, dest);
    ok := r >= 0;
  }
}
