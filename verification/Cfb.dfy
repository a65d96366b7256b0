/** LimpetSymmetricPayloadProtection: a file encrypted or decrypted in place, one block at a time, in the cipher
    feedback mode of NIST SP 800-38A, section 6.3, with a zero initialization vector.  The block cipher under a fixed
    key is an arbitrary function from blocks to blocks. */
module Cfb {

  const BLOCK: nat := 16

  type Octets = seq<bv8>

  type Block = b: Octets | |b| == 16 witness [0, 0, 0, 0, 0, 0, 0, 0, 0, 0, 0, 0, 0, 0, 0, 0]

  const ZERO_IV: Block := [0, 0, 0, 0, 0, 0, 0, 0, 0, 0, 0, 0, 0, 0, 0, 0]

  function Xor(a: Octets, b: Octets): (r: Octets)
    requires |a| <= |b|
    ensures |r| == |a|
    ensures forall i :: 0 <= i < |a| ==> r[i] == a[i] ^ b[i]
  {
    seq(|a|, i requires 0 <= i < |a| => a[i] ^ b[i])
  }

  lemma XorTwice(a: Octets, b: Octets)
    requires |a| <= |b|
    ensures Xor(Xor(a, b), b) == a
  {
  }

  // ---- the mode on whole streams

  function Encrypt(cipher: Block -> Block, iv: Block, plain: Octets): (c: Octets)
    ensures |c| == |plain|
    decreases |plain|
  {
    if |plain| < BLOCK then Xor(plain, cipher(iv))
    else
      var c := Xor(plain[..BLOCK], cipher(iv));
      c + Encrypt(cipher, c, plain[BLOCK..])
  }

  function Decrypt(cipher: Block -> Block, iv: Block, text: Octets): (p: Octets)
    ensures |p| == |text|
    decreases |text|
  {
    if |text| < BLOCK then Xor(text, cipher(iv))
    else Xor(text[..BLOCK], cipher(iv)) + Decrypt(cipher, text[..BLOCK], text[BLOCK..])
  }

  /** The cipher is used in the same direction both ways, so it need not be invertible. */
  lemma {:induction false} DecryptUndoesEncrypt(cipher: Block -> Block, iv: Block, plain: Octets)
    ensures Decrypt(cipher, iv, Encrypt(cipher, iv, plain)) == plain
    decreases |plain|
  {
    if |plain| < BLOCK {
      XorTwice(plain, cipher(iv));
    } else {
      var c, rest := Xor(plain[..BLOCK], cipher(iv)), plain[BLOCK..];
      var text := c + Encrypt(cipher, c, rest);
      assert text[..BLOCK] == c && text[BLOCK..] == Encrypt(cipher, c, rest);
      XorTwice(plain[..BLOCK], cipher(iv));
      DecryptUndoesEncrypt(cipher, c, rest);
    }
  }

  lemma {:induction false} EncryptUndoesDecrypt(cipher: Block -> Block, iv: Block, text: Octets)
    ensures Encrypt(cipher, iv, Decrypt(cipher, iv, text)) == text
    decreases |text|
  {
    if |text| < BLOCK {
      XorTwice(text, cipher(iv));
    } else {
      var p, rest := Xor(text[..BLOCK], cipher(iv)), text[BLOCK..];
      var plain := p + Decrypt(cipher, text[..BLOCK], rest);
      assert plain[..BLOCK] == p && plain[BLOCK..] == Decrypt(cipher, text[..BLOCK], rest);
      XorTwice(text[..BLOCK], cipher(iv));
      EncryptUndoesDecrypt(cipher, text[..BLOCK], rest);
    }
  }

  /** A prefix of a ciphertext decrypts to the prefix of the plaintext. */
  lemma {:induction false} PrefixesDecrypt(cipher: Block -> Block, iv: Block, text: Octets, n: nat)
    requires n <= |text|
    ensures Decrypt(cipher, iv, text[..n]) == Decrypt(cipher, iv, text)[..n]
    decreases |text|
  {
    if n < BLOCK {
    } else {
      var rest := text[BLOCK..];
      assert text[..n][..BLOCK] == text[..BLOCK] && text[..n][BLOCK..] == rest[..n - BLOCK];
      PrefixesDecrypt(cipher, text[..BLOCK], rest, n - BLOCK);
    }
  }

  // ---- block by block

  /** Either direction, on a whole stream. */
  function Protect(encrypt: bool, cipher: Block -> Block, iv: Block, data: Octets): (r: Octets)
    ensures |r| == |data|
  {
    if encrypt then Encrypt(cipher, iv, data) else Decrypt(cipher, iv, data)
  }

  /** One call of the symmetric primitive on a full buffer, which also advances the vector. */
  function ProtectBlock(encrypt: bool, cipher: Block -> Block, iv: Block, buffer: Block): (Block, Block) {
    var result := Xor(buffer, cipher(iv));
    (result, if encrypt then result else buffer)
  }

  /** The vector after a stream of whole blocks. */
  function Advance(encrypt: bool, cipher: Block -> Block, iv: Block, data: Octets): Block
    decreases |data|
  {
    if |data| < BLOCK then iv
    else Advance(encrypt, cipher, ProtectBlock(encrypt, cipher, iv, data[..BLOCK]).1, data[BLOCK..])
  }

  /** Both directions take a full first block off the same way. */
  lemma FirstBlock(encrypt: bool, cipher: Block -> Block, iv: Block, data: Octets)
    requires |data| >= BLOCK
    ensures var (first, next) := ProtectBlock(encrypt, cipher, iv, data[..BLOCK]);
      Protect(encrypt, cipher, iv, data) == first + Protect(encrypt, cipher, next, data[BLOCK..])
  {
  }

  lemma AdvanceStep(encrypt: bool, cipher: Block -> Block, iv: Block, data: Octets)
    requires |data| >= BLOCK
    ensures Advance(encrypt, cipher, iv, data) ==
      Advance(encrypt, cipher, ProtectBlock(encrypt, cipher, iv, data[..BLOCK]).1, data[BLOCK..])
  {
  }

  lemma Join(a: Octets, b: Octets, c: Octets)
    ensures (a + b) + c == a + (b + c)
  {
  }

  /** Streams can be processed in parts that end at block boundaries. */
  lemma {:induction false} ProtectInParts(encrypt: bool, cipher: Block -> Block, iv: Block, a: Octets, b: Octets)
    requires |a| % BLOCK == 0
    ensures Protect(encrypt, cipher, iv, a + b) ==
      Protect(encrypt, cipher, iv, a) + Protect(encrypt, cipher, Advance(encrypt, cipher, iv, a), b)
    decreases |a|
  {
    if a == [] {
      assert a + b == b;
      assert Protect(encrypt, cipher, iv, a) == [];
    } else {
      hide Protect, ProtectBlock, Advance;
      var (first, next) := ProtectBlock(encrypt, cipher, iv, a[..BLOCK]);
      var rest := a[BLOCK..];
      assert (a + b)[..BLOCK] == a[..BLOCK] && (a + b)[BLOCK..] == rest + b;
      FirstBlock(encrypt, cipher, iv, a + b);
      FirstBlock(encrypt, cipher, iv, a);
      ProtectInParts(encrypt, cipher, next, rest, b);
      AdvanceStep(encrypt, cipher, iv, a);
      Join(first, Protect(encrypt, cipher, next, rest),
        Protect(encrypt, cipher, Advance(encrypt, cipher, next, rest), b));
    }
  }

  lemma {:induction false} AdvanceInParts(encrypt: bool, cipher: Block -> Block, iv: Block, a: Octets, b: Octets)
    requires |a| % BLOCK == 0
    ensures Advance(encrypt, cipher, iv, a + b) == Advance(encrypt, cipher, Advance(encrypt, cipher, iv, a), b)
    decreases |a|
  {
    if a == [] {
      assert a + b == b;
    } else {
      var next := ProtectBlock(encrypt, cipher, iv, a[..BLOCK]).1;
      assert (a + b)[..BLOCK] == a[..BLOCK] && (a + b)[BLOCK..] == a[BLOCK..] + b;
      AdvanceInParts(encrypt, cipher, next, a[BLOCK..], b);
    }
  }

  /** The buffer of the last block is filled up with zeros; what they become is not written back. */
  lemma LastBlock(encrypt: bool, cipher: Block -> Block, iv: Block, data: Octets, buffer: Block)
    requires 0 < |data| <= BLOCK && buffer[..|data|] == data
    ensures ProtectBlock(encrypt, cipher, iv, buffer).0[..|data|] == Protect(encrypt, cipher, iv, data)
    ensures |data| == BLOCK ==> ProtectBlock(encrypt, cipher, iv, buffer).1 == Advance(encrypt, cipher, iv, data)
  {
    if |data| == BLOCK {
      assert buffer == data && data[..BLOCK] == data && data[BLOCK..] == [];
    }
  }

  // ---- the loop over the file

  const UINT32_SIZE: nat := 0x1_0000_0000
  const LAST_SIZE: nat := 0xffff_fff0

  /** Where the loop stands: about to test its guard with offset `n`, or over. */
  datatype Loop = Running(file: Octets, iv: Block, n: nat) | Ended(file: Octets, ok: bool)

  function Plus16(n: nat): nat {
    (n + 16) % UINT32_SIZE
  }

  function ReadData(size: nat, n: nat): (r: nat)
    requires n < size
    ensures n + r <= size && r <= BLOCK
  {
    if size - n < BLOCK then size - n else BLOCK
  }

  /** What is read at an offset, filled up with zeros. */
  function DataBuffer(file: Octets, n: nat): Block
    requires n < |file|
  {
    file[n..n + ReadData(|file|, n)] + ZERO_IV[ReadData(|file|, n)..]
  }

  /** As much is written back as was read. */
  function Rewritten(file: Octets, n: nat, result: Block): (r: Octets)
    requires n < |file|
    ensures |r| == |file|
  {
    file[..n] + result[..ReadData(|file|, n)] + file[n + ReadData(|file|, n)..]
  }

  /** One turn.  `works` says at which offsets the seeks, the read and the write of the file succeed; the offset is a
      UINT32. */
  function Turn(encrypt: bool, cipher: Block -> Block, works: nat -> bool, s: Loop): (t: Loop)
    ensures |t.file| == |s.file|
  {
    if s.Ended? then s
    else if s.n >= |s.file| then Ended(s.file, true)
    else if !works(s.n) then Ended(s.file, false)
    else
      var (result, next) := ProtectBlock(encrypt, cipher, s.iv, DataBuffer(s.file, s.n));
      Running(Rewritten(s.file, s.n, result), next, Plus16(s.n))
  }

  /** The loop on a file after `k` turns. */
  function Turns(encrypt: bool, cipher: Block -> Block, works: nat -> bool, data: Octets, k: nat): (t: Loop)
    ensures |t.file| == |data|
  {
    if k == 0 then Running(data, ZERO_IV, 0)
    else Turn(encrypt, cipher, works, Turns(encrypt, cipher, works, data, k - 1))
  }

  predicate AllWork(works: nat -> bool, size: nat) {
    forall n: nat :: n < size && n % BLOCK == 0 ==> works(n)
  }

  lemma OneMoreWorks(works: nat -> bool, n: nat)
    requires AllWork(works, n) && works(n)
    ensures n % BLOCK == 0 ==> AllWork(works, n + BLOCK)
  {
  }

  lemma OneFewer(works: nat -> bool, n: nat)
    requires AllWork(works, n + BLOCK) && n % BLOCK == 0
    ensures AllWork(works, n) && works(n)
  {
  }

  lemma NoneBlocked(works: nat -> bool)
    ensures AllWork(works, 0)
  {
  }

  lemma OneBlocked(works: nat -> bool, n: nat, size: nat)
    requires n < size && n % BLOCK == 0 && !works(n)
    ensures !AllWork(works, size)
  {
  }

  lemma AllWorkBelow(works: nat -> bool, n: nat, size: nat)
    requires AllWork(works, n) && n >= size
    ensures AllWork(works, size)
  {
  }

  /** The file with its first `n` bytes, or all of them, processed. */
  predicate Done(encrypt: bool, cipher: Block -> Block, data: Octets, file: Octets, n: nat) {
    var m := if n < |data| then n else |data|;
    file == Protect(encrypt, cipher, ZERO_IV, data[..m]) + data[m..]
  }

  lemma DoneAtFirst(encrypt: bool, cipher: Block -> Block, data: Octets)
    ensures Done(encrypt, cipher, data, data, 0)
    ensures data[..0] == [] && Advance(encrypt, cipher, ZERO_IV, data[..0]) == ZERO_IV
  {
  }

  lemma DoneAtLast(encrypt: bool, cipher: Block -> Block, data: Octets, file: Octets, n: nat)
    requires Done(encrypt, cipher, data, file, n) && n >= |data|
    ensures file == Protect(encrypt, cipher, ZERO_IV, data)
  {
    hide Protect;
    assert data[..|data|] == data && data[|data|..] == [];
  }

  /** One turn of the loop: the block at `n` is read, processed, and written back. */
  lemma OneMore(encrypt: bool, cipher: Block -> Block, data: Octets, file: Octets, n: nat, iv: Block)
    requires n < |data| == |file| && n % BLOCK == 0
    requires Done(encrypt, cipher, data, file, n) && iv == Advance(encrypt, cipher, ZERO_IV, data[..n])
    ensures var (result, next) := ProtectBlock(encrypt, cipher, iv, DataBuffer(file, n));
      && Done(encrypt, cipher, data, Rewritten(file, n, result), n + BLOCK)
      && (n + BLOCK < |data| ==> next == Advance(encrypt, cipher, ZERO_IV, data[..n + BLOCK]))
  {
    hide Protect, ProtectBlock, Advance;
    var m := n + ReadData(|data|, n);
    var part := data[n..m];
    assert file[n..m] == part && file[m..] == data[m..];
    assert file[..n] == Protect(encrypt, cipher, ZERO_IV, data[..n]);
    assert data[..m] == data[..n] + part;
    LastBlock(encrypt, cipher, iv, part, DataBuffer(file, n));
    ProtectInParts(encrypt, cipher, ZERO_IV, data[..n], part);
    AdvanceInParts(encrypt, cipher, ZERO_IV, data[..n], part);
  }

  lemma TurnsStep(encrypt: bool, cipher: Block -> Block, works: nat -> bool, data: Octets, k: nat)
    ensures Turns(encrypt, cipher, works, data, 0) == Running(data, ZERO_IV, 0)
    ensures Turns(encrypt, cipher, works, data, k + 1) ==
      Turn(encrypt, cipher, works, Turns(encrypt, cipher, works, data, k))
  {
    hide Turn;
  }

  /** A turn on a running loop whose file calls succeed. */
  lemma TurnWorks(encrypt: bool, cipher: Block -> Block, works: nat -> bool, s: Loop)
    requires s.Running? && s.n < |s.file| && works(s.n)
    ensures var (result, next) := ProtectBlock(encrypt, cipher, s.iv, DataBuffer(s.file, s.n));
      Turn(encrypt, cipher, works, s) == Running(Rewritten(s.file, s.n, result), next, Plus16(s.n))
  {
    hide ProtectBlock, Plus16, DataBuffer, Rewritten;
  }

  lemma TurnEnds(encrypt: bool, cipher: Block -> Block, works: nat -> bool, s: Loop)
    ensures Turn(encrypt, cipher, works, s).Ended? <==> s.Ended? || s.n >= |s.file| || !works(s.n)
    ensures s.Running? && s.n >= |s.file| ==> Turn(encrypt, cipher, works, s) == Ended(s.file, true)
    ensures s.Running? && s.n < |s.file| && !works(s.n) ==> Turn(encrypt, cipher, works, s) == Ended(s.file, false)
  {
    hide ProtectBlock, Plus16, DataBuffer, Rewritten;
  }

  lemma NotWrapping(n: nat)
    requires n + 16 < UINT32_SIZE
    ensures Plus16(n) == n + 16
  {
  }

  /** The loop invariant: up to the first offset where a file call fails, `k` turns process `k` blocks. */
  lemma {:induction false} TurnsProcess(encrypt: bool, cipher: Block -> Block, works: nat -> bool, data: Octets, k: nat)
    requires 16 * k < |data| + BLOCK && 16 * k < UINT32_SIZE && AllWork(works, 16 * k)
    ensures var t := Turns(encrypt, cipher, works, data, k);
      && t.Running? && t.n == 16 * k && Done(encrypt, cipher, data, t.file, 16 * k)
      && (16 * k < |data| ==> t.iv == Advance(encrypt, cipher, ZERO_IV, data[..16 * k]))
  {
    hide ProtectBlock, Advance, Done, Turns, Turn, Plus16, AllWork, DataBuffer, Rewritten;
    if k == 0 {
      TurnsStep(encrypt, cipher, works, data, 0);
      DoneAtFirst(encrypt, cipher, data);
    } else {
      TurnsStep(encrypt, cipher, works, data, k - 1);
      var n := 16 * (k - 1);
      OneFewer(works, n);
      TurnsProcess(encrypt, cipher, works, data, k - 1);
      var s := Turns(encrypt, cipher, works, data, k - 1);
      TurnWorks(encrypt, cipher, works, s);
      NotWrapping(n);
      OneMore(encrypt, cipher, data, s.file, n, s.iv);
    }
  }

  function Offset(k: nat): nat {
    16 * k % UINT32_SIZE
  }

  lemma NextOffset(k: nat)
    ensures Offset(0) == 0 && Plus16(Offset(k)) == Offset(k + 1)
    ensures Offset(k) <= LAST_SIZE && Offset(k) % BLOCK == 0
    ensures 16 * k < UINT32_SIZE ==> Offset(k) == 16 * k
  {
    var m, q := k % 0x1000_0000, k / 0x1000_0000;
    assert 16 * k == q * UINT32_SIZE + 16 * m;
    assert Offset(k) == 16 * m;
  }

  /** Where the loop is still running, its offset is the number of its turns times 16, wrapped. */
  lemma {:induction false} OffsetOfTurn(encrypt: bool, cipher: Block -> Block, works: nat -> bool, data: Octets, k: nat)
    ensures var t := Turns(encrypt, cipher, works, data, k); t.Running? ==> t.n == Offset(k)
  {
    hide ProtectBlock, Turns, Turn, Plus16, Offset;
    NextOffset(0);
    TurnsStep(encrypt, cipher, works, data, 0);
    if k > 0 {
      var s := Turns(encrypt, cipher, works, data, k - 1);
      TurnsStep(encrypt, cipher, works, data, k - 1);
      OffsetOfTurn(encrypt, cipher, works, data, k - 1);
      NextOffset(k - 1);
      TurnEnds(encrypt, cipher, works, s);
      if s.Running? && s.n < |s.file| && works(s.n) {
        TurnWorks(encrypt, cipher, works, s);
      }
    }
  }

  lemma {:induction false} NeverEnds(encrypt: bool, cipher: Block -> Block, works: nat -> bool, data: Octets, k: nat)
    requires LAST_SIZE < |data| < UINT32_SIZE && AllWork(works, |data|)
    ensures Turns(encrypt, cipher, works, data, k).Running?
  {
    hide ProtectBlock, Turns, Turn, Offset;
    TurnsStep(encrypt, cipher, works, data, 0);
    if k > 0 {
      NeverEnds(encrypt, cipher, works, data, k - 1);
      OffsetOfTurn(encrypt, cipher, works, data, k - 1);
      NextOffset(k - 1);
      TurnsStep(encrypt, cipher, works, data, k - 1);
      TurnEnds(encrypt, cipher, works, Turns(encrypt, cipher, works, data, k - 1));
    }
  }

  /** The loop ends exactly if the wrapping offset can reach the size of the file, or a file call fails before it
      wraps. */
  lemma LoopEndsExactly(encrypt: bool, cipher: Block -> Block, works: nat -> bool, data: Octets)
    requires |data| < UINT32_SIZE
    ensures (exists k :: Turns(encrypt, cipher, works, data, k).Ended?) <==>
      |data| <= LAST_SIZE || !AllWork(works, |data|)
  {
    hide Turn;
    if |data| > LAST_SIZE && AllWork(works, |data|) {
      forall k
        ensures Turns(encrypt, cipher, works, data, k).Running?
      {
        NeverEnds(encrypt, cipher, works, data, k);
      }
    } else if AllWork(works, |data|) {
      EndsAt(encrypt, cipher, works, data, (|data| + BLOCK - 1) / BLOCK);
    } else {
      var n: nat :| n < |data| && n % BLOCK == 0 && !works(n);
      EndsAt(encrypt, cipher, works, data, n / BLOCK);
    }
  }

  lemma EndsAt(encrypt: bool, cipher: Block -> Block, works: nat -> bool, data: Octets, k: nat)
    requires 16 * k < UINT32_SIZE && (16 * k >= |data| || !works(16 * k))
    ensures Turns(encrypt, cipher, works, data, k + 1).Ended?
  {
    hide ProtectBlock, Turns, Turn, Offset;
    OffsetOfTurn(encrypt, cipher, works, data, k);
    NextOffset(k);
    TurnsStep(encrypt, cipher, works, data, k);
    TurnEnds(encrypt, cipher, works, Turns(encrypt, cipher, works, data, k));
  }

  /** The distance of a seek is a signed LONG, and seeks before the beginning are refused. */
  ghost predicate SeeksAreSigned(works: nat -> bool) {
    forall n: nat :: works(n) ==> n < 0x8000_0000
  }

  /** With such seeks the loop always ends, but every file of more than 2^31 bytes fails half way: no more than its
      first 2^31 bytes are processed, and exactly those if nothing else fails. */
  lemma LargeFilesFail(encrypt: bool, cipher: Block -> Block, works: nat -> bool, data: Octets)
    requires 0x8000_0000 < |data| < UINT32_SIZE && SeeksAreSigned(works)
    ensures exists k, n: nat ::
      && Turns(encrypt, cipher, works, data, k).Ended? && !Turns(encrypt, cipher, works, data, k).ok
      && n <= 0x8000_0000 && Done(encrypt, cipher, data, Turns(encrypt, cipher, works, data, k).file, n)
      && (AllWork(works, 0x8000_0000) ==> n == 0x8000_0000)
  {
    hide Done, Turns, Turn, ProtectBlock;
    var n := FirstFailure(works, 0x8000_0000);
    StopsHere(encrypt, cipher, works, data, n / BLOCK);
    assert !Turns(encrypt, cipher, works, data, n / BLOCK + 1).ok;
  }

  lemma FirstFailure(works: nat -> bool, last: nat) returns (n: nat)
    requires last % BLOCK == 0 && !works(last)
    ensures n <= last && n % BLOCK == 0 && !works(n) && AllWork(works, n)
    ensures AllWork(works, last) ==> n == last
  {
    n := 0;
    while works(n)
      invariant n <= last && n % BLOCK == 0 && AllWork(works, n)
      decreases last - n
    {
      n := n + BLOCK;
    }
  }

  method ReadFile(file: array<bv8>, n: nat) returns (dataBuffer: Block)
    requires n < file.Length
    ensures dataBuffer == DataBuffer(file[..], n)
  {
    var readData := ReadData(file.Length, n);
    dataBuffer := file[n..n + readData] + ZERO_IV[readData..];
    assert file[..][n..n + readData] == file[n..n + readData];
  }

  method WriteFile(file: array<bv8>, n: nat, result: Block)
    requires n < file.Length
    modifies file
    ensures file[..] == Rewritten(old(file[..]), n, result)
  {
    forall i | 0 <= i < ReadData(file.Length, n) {
      file[n + i] := result[i];
    }
  }

  /** The body of the loop, up to the step of the offset. */
  method ProtectAt(encrypt: bool, cipher: Block -> Block, file: array<bv8>, n: nat, iv: Block, ghost works: nat -> bool)
    returns (next: Block)
    requires n < file.Length && works(n)
    modifies file
    ensures Turn(encrypt, cipher, works, Running(old(file[..]), iv, n)) == Running(file[..], next, Plus16(n))
  {
    hide ProtectBlock, Turn, Plus16, DataBuffer, Rewritten;
    TurnWorks(encrypt, cipher, works, Running(file[..], iv, n));
    var dataBuffer := ReadFile(file, n);
    var processed := ProtectBlock(encrypt, cipher, iv, dataBuffer);
    WriteFile(file, n, processed.0);
    next := processed.1;
  }

  /** A failure leaves the file processed up to the first block that failed; in every case the file is as the turns of
      the loop leave it. */
  method LimpetSymmetricPayloadProtection(encrypt: bool, cipher: Block -> Block, file: array<bv8>, works: nat -> bool)
    returns (ok: bool)
    requires file.Length < UINT32_SIZE
    requires file.Length <= LAST_SIZE || !AllWork(works, file.Length)
    modifies file
    ensures ok <==> file.Length > 0 && AllWork(works, file.Length)
    ensures ok ==> file[..] == Protect(encrypt, cipher, ZERO_IV, old(file[..]))
    ensures !ok && file.Length > 0 ==>
      exists n: nat ::
        && n < file.Length && n % BLOCK == 0 && !works(n) && AllWork(works, n)
        && Done(encrypt, cipher, old(file[..]), file[..], n)
    ensures file.Length > 0 ==> exists k :: Turns(encrypt, cipher, works, old(file[..]), k) == Ended(file[..], ok)
    ensures file.Length == 0 ==> file[..] == old(file[..])
  {
    hide Protect, ProtectBlock, Advance, Done, AllWork, Turns, Turn, Plus16;
    ghost var data := file[..];
    var dataSize := file.Length;
    if dataSize == 0 {
      return false;
    }
    var iv: Block := ZERO_IV;
    var n := 0;
    ghost var k := 0;
    NoneBlocked(works);
    TurnsStep(encrypt, cipher, works, data, 0);
    while n < dataSize
      invariant n == 16 * k < dataSize + BLOCK && n < UINT32_SIZE
      invariant AllWork(works, n)
      invariant Turns(encrypt, cipher, works, data, k) == Running(file[..], iv, n)
      decreases dataSize - n
    {
      TurnsStep(encrypt, cipher, works, data, k);
      if !works(n) {
        StopsHere(encrypt, cipher, works, data, k);
        OneBlocked(works, n, dataSize);
        return false;
      }
      iv := ProtectAt(encrypt, cipher, file, n, iv, works);
      NextTurn(works, n, dataSize);
      n, k := Plus16(n), k + 1;
    }
    StopsHere(encrypt, cipher, works, data, k);
    DoneAtLast(encrypt, cipher, data, file[..], n);
    AllWorkBelow(works, n, dataSize);
    ok := true;
  }

  lemma NextTurn(works: nat -> bool, n: nat, size: nat)
    requires n < size < UINT32_SIZE && n % BLOCK == 0 && AllWork(works, n) && works(n)
    requires size <= LAST_SIZE || !AllWork(works, size)
    ensures AllWork(works, n + BLOCK) && Plus16(n) == n + 16 < UINT32_SIZE
  {
    OneMoreWorks(works, n);
    if n + BLOCK >= size { AllWorkBelow(works, n + BLOCK, size); }
    hide AllWork;
    NotWrapping(n);
  }

  lemma StopsHere(encrypt: bool, cipher: Block -> Block, works: nat -> bool, data: Octets, k: nat)
    requires 16 * k < |data| + BLOCK && 16 * k < UINT32_SIZE && AllWork(works, 16 * k)
    requires 16 * k < |data| ==> !works(16 * k)
    ensures var t := Turns(encrypt, cipher, works, data, k);
      && Turns(encrypt, cipher, works, data, k + 1) == Ended(t.file, 16 * k >= |data|)
      && Done(encrypt, cipher, data, t.file, 16 * k)
  {
    hide ProtectBlock, Advance, Done, AllWork, Turns, Turn;
    TurnsProcess(encrypt, cipher, works, data, k);
    TurnsStep(encrypt, cipher, works, data, k);
    TurnEnds(encrypt, cipher, works, Turns(encrypt, cipher, works, data, k));
  }
}
