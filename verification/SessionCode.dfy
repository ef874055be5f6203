/** The session context updated in place, over the buffers it encrypts. */
module SessionCode {
  import opened Bits
  import opened Common
  import opened Wire
  import opened Session
  import R = Rc4

  lemma Big4(v: Word32)
    ensures Big(v, 4) == [v / 0x100_0000 % 256, v / 0x1_0000 % 256, v / 0x100 % 256, v % 256]
  {
    assert Pow256(0) == 1 && Pow256(1) == 256 && Pow256(2) == 256 * 256 && Pow256(3) == 256 * (256 * 256);
    BigAt(v, 4, 0);
    BigAt(v, 4, 1);
    BigAt(v, 4, 2);
    BigAt(v, 4, 3);
  }

  method WriteBe32(a: array<Byte>, at: nat, v: Word32)
    requires at + 4 <= a.Length
    modifies a
    ensures a[at..at + 4] == Big(v, 4)
    ensures a[..at] == old(a[..at]) && a[at + 4..] == old(a[at + 4..])
  {
    hide Big, Pow256;
    var bytes := [v / 0x100_0000 % 256, v / 0x1_0000 % 256, v / 0x100 % 256, v % 256];
    Big4(v);
    Put(a, at, bytes);
  }

  /** A counter shifted right by 56, 48, ... 0 bits, each time cut to a byte. */
  method BuildNonce(id: Word32, counter: nat) returns (nonce: array<Byte>)
    requires counter < COUNTERS
    ensures fresh(nonce) && nonce[..] == Nonce(id, counter)
  {
    hide Big;
    nonce := new Byte[12](_ => 0);
    WriteBe32(nonce, 0, id);
    ghost var first := nonce[..4];
    var i := 0;
    while i < 8
      invariant 0 <= i <= 8
      invariant nonce[..4] == first
      invariant forall k :: 4 <= k < 4 + i ==> nonce[k] == Big(counter, 8)[k - 4]
    {
      BigAt(counter, 8, i);
      nonce[4 + i] := counter / Pow256(7 - i) % 256;
      i := i + 1;
    }
    assert nonce[..] == nonce[..4] + nonce[4..];
    assert nonce[4..] == Big(counter, 8);
  }

  method BuildIv(p: Primitives, id: Word32, counter: nat, n: nat) returns (iv: seq<Byte>)
    requires Lawful(p) && counter < COUNTERS && n <= 32
    ensures iv == Iv(p, id, counter, n)
  {
    hide Nonce;
    var input := BuildNonce(id, counter);
    var digest := p.sha256(input[..]);
    iv := digest[..n];
  }

  class Context {
    var mode: Byte
    const key: array<Byte>
    var keyLen: nat
    var txCounter: nat
    var rxCounter: nat
    const rc4Tx: R.Cipher
    const rc4Rx: R.Cipher

    ghost predicate WellFormed()
      reads this, rc4Tx, rc4Rx
    {
      && key.Length == 32 && keyLen <= 32 && txCounter < COUNTERS && rxCounter < COUNTERS
      && KeyOk(mode, keyLen)
      && rc4Tx != rc4Rx && rc4Tx.WellFormed() && rc4Rx.WellFormed()
      && rc4Tx.s != key && rc4Rx.s != key && rc4Tx.s != rc4Rx.s
    }

    ghost function View(): (c: Ctx)
      requires WellFormed()
      reads this, key, rc4Tx, rc4Rx, rc4Tx.s, rc4Rx.s
      ensures Valid(c)
    {
      Ctx(mode, key[..keyLen], txCounter, rxCounter, StreamOf(rc4Tx), StreamOf(rc4Rx))
    }

    static ghost function StreamOf(c: R.Cipher): (s: Stream)
      requires c.WellFormed()
      reads c, c.s
      ensures StreamOk(s)
    {
      if c.ready then Running(c.View()) else Idle
    }

    constructor ()
      ensures WellFormed() && View() == Fresh(NONE, [])
      ensures fresh(key) && fresh(rc4Tx) && fresh(rc4Rx) && fresh(rc4Tx.s) && fresh(rc4Rx.s)
    {
      mode, keyLen, txCounter, rxCounter := NONE, 0, 0, 0;
      key := new Byte[32](_ => 0);
      rc4Tx := new R.Cipher();
      rc4Rx := new R.Cipher();
    }

    /** Rejects a mode that is not allowed or not known and a key that does not fit it; otherwise the session
        starts anew. */
    method SetCrypto(mask: bv32, newMode: Byte, newKey: seq<Byte>) returns (ok: bool)
      requires WellFormed()
      modifies this, key, rc4Tx`ready, rc4Rx`ready
      ensures WellFormed()
      ensures ok <==>
        || newMode == 0x00
        || (newMode == 0x01 && (mask == 0 || mask & 0x01 != 0) && 1 <= |newKey| <= 32)
        || (newMode == 0x02 && (mask == 0 || mask & 0x02 != 0) && (|newKey| == 16 || |newKey| == 24 || |newKey| == 32))
        || (newMode == 0x10 && (mask == 0 || mask & 0x04 != 0) && |newKey| == 24)
        || (newMode == 0x11 && (mask == 0 || mask & 0x10 != 0) && (|newKey| == 16 || |newKey| == 24 || |newKey| == 32))
      ensures ok ==> View() == Ctx(newMode, if newMode == 0x00 then [] else newKey, 0, 0, Idle, Idle)
      ensures !ok ==> View() == old(View())
    {
      if !Allowed(mask, newMode) {
        return false;
      }
      if newMode == NONE {
        Reset();
        return true;
      }
      if !KeyOk(newMode, |newKey|) {
        return false;
      }
      Reset();
      mode := newMode;
      Put(key, 0, newKey);
      keyLen := |newKey|;
      ok := true;
    }

    method Reset()
      requires WellFormed()
      modifies this, rc4Tx`ready, rc4Rx`ready
      ensures WellFormed() && View() == Fresh(NONE, [])
    {
      mode, keyLen, txCounter, rxCounter := NONE, 0, 0, 0;
      rc4Tx.ready := false;
      rc4Rx.ready := false;
    }

    // ----- Sending

    /** Runs one direction's keystream over a message, keying it first if need be. */
    method Rc4Run(c: R.Cipher, data: array<Byte>, len: nat) returns (ok: bool)
      requires WellFormed() && (c == rc4Tx || c == rc4Rx) && mode == RC4
      requires len <= data.Length && data != key && data != rc4Tx.s && data != rc4Rx.s
      modifies c`i, c`j, c`ready, c.s, data
      ensures WellFormed() && ok
      ensures c.ready && c.View() == R.After(Opened(old(StreamOf(c)), key[..keyLen]), len)
      ensures data[..len] == R.Stream(Opened(old(StreamOf(c)), key[..keyLen]), old(data[..len]))
      ensures data[len..] == old(data[len..])
    {
      hide R.Stream, R.After, R.Start;
      if !c.ready {
        var keyed := c.Init(key, keyLen);
        if !keyed {
          return false;
        }
      }
      ok := c.Apply(data, len);
    }

    method EncryptCbc(p: Primitives, data: array<Byte>, len: nat, id: Word32) returns (ok: bool)
      requires Lawful(p) && WellFormed() && 0 < len <= data.Length && (mode == AES || mode == TDES)
      requires data != key && data != rc4Tx.s && data != rc4Rx.s
      modifies this`txCounter, data
      ensures WellFormed() && ok == (len % (if mode == AES then 16 else 8) == 0)
      ensures ok ==> txCounter == Tick(old(txCounter))
      ensures ok && mode == AES ==>
        data[..len] == p.aesSeal(key[..keyLen], Iv(p, id, old(txCounter), 16), old(data[..len]))
      ensures ok && mode == TDES ==>
        data[..len] == p.tdesSeal(key[..keyLen], Iv(p, id, old(txCounter), 8), old(data[..len]))
      ensures !ok ==> txCounter == old(txCounter) && data[..] == old(data[..])
      ensures data[len..] == old(data[len..])
    {
      hide Nonce, Iv;
      if mode == AES {
        if len % 16 != 0 {
          return false;
        }
        var iv := BuildIv(p, id, txCounter, 16);
        Put(data, 0, p.aesSeal(key[..keyLen], iv, data[..len]));
      } else {
        if len % 8 != 0 {
          return false;
        }
        var iv := BuildIv(p, id, txCounter, 8);
        Put(data, 0, p.tdesSeal(key[..keyLen], iv, data[..len]));
      }
      txCounter := (txCounter + 1) % COUNTERS;
      ok := true;
    }

    method EncryptGcm(p: Primitives, data: array<Byte>, len: nat, capacity: nat, id: Word32) returns (ok: bool)
      requires Lawful(p) && WellFormed() && 0 < len <= data.Length && capacity <= data.Length && mode == GCM
      requires data != key && data != rc4Tx.s && data != rc4Rx.s
      modifies this`txCounter, data
      ensures WellFormed() && ok == (len + TAG <= capacity)
      ensures
        var s := p.gcmSeal(key[..keyLen], Nonce(id, old(txCounter)), Big(id, 4), old(data[..len]));
        ok ==> txCounter == Tick(old(txCounter)) && data[..len + TAG] == s.0 + s.1
      ensures ok ==> data[len + TAG..] == old(data[len + TAG..])
      ensures !ok ==> txCounter == old(txCounter) && data[..] == old(data[..])
    {
      hide Nonce, Big;
      if capacity < len + TAG {
        return false;
      }
      var nonce := BuildNonce(id, txCounter);
      var aad := new Byte[4](_ => 0);
      WriteBe32(aad, 0, id);
      assert aad[..] == aad[0..4];
      var s := p.gcmSeal(key[..keyLen], nonce[..], aad[..], data[..len]);
      Put(data, 0, s.0 + s.1);
      txCounter := (txCounter + 1) % COUNTERS;
      ok := true;
    }

    method Encrypt(p: Primitives, data: array<Byte>, len: nat, capacity: nat, id: Word32)
      returns (ok: bool, outLen: nat)
      requires Lawful(p) && WellFormed() && len <= data.Length && capacity <= data.Length
      requires data != key && data != rc4Tx.s && data != rc4Rx.s
      modifies this`txCounter, data, rc4Tx`i, rc4Tx`j, rc4Tx`ready, rc4Tx.s
      ensures WellFormed()
      ensures ok == Session.Encrypt(p, old(View()), old(data[..len]), capacity, id).Done?
      ensures ok ==> outLen <= data.Length && data[outLen..] == old(data[outLen..])
      ensures ok ==>
        Session.Encrypt(p, old(View()), old(data[..len]), capacity, id) == Done(View(), data[..outLen])
      ensures !ok ==> outLen == len && View() == old(View()) && data[..] == old(data[..])
    {
      hide Nonce, Iv, Big, R.Stream, R.After, R.Start;
      outLen := len;
      if len == 0 {
        return false, len;
      }
      if mode == NONE {
        ok := true;
      } else if mode == RC4 {
        ok := Rc4Run(rc4Tx, data, len);
      } else if mode == AES || mode == TDES {
        ok := EncryptCbc(p, data, len, id);
      } else {
        ok := EncryptGcm(p, data, len, capacity, id);
        if ok {
          outLen := len + TAG;
        }
      }
    }

    // ----- Receiving

    method DecryptCbc(p: Primitives, data: array<Byte>, len: nat, id: Word32) returns (ok: bool)
      requires Lawful(p) && WellFormed() && 0 < len <= data.Length && (mode == AES || mode == TDES)
      requires data != key && data != rc4Tx.s && data != rc4Rx.s
      modifies this`rxCounter, data
      ensures WellFormed() && ok == (len % (if mode == AES then 16 else 8) == 0)
      ensures ok ==> rxCounter == Tick(old(rxCounter))
      ensures ok && mode == AES ==>
        data[..len] == p.aesOpen(key[..keyLen], Iv(p, id, old(rxCounter), 16), old(data[..len]))
      ensures ok && mode == TDES ==>
        data[..len] == p.tdesOpen(key[..keyLen], Iv(p, id, old(rxCounter), 8), old(data[..len]))
      ensures !ok ==> rxCounter == old(rxCounter)
      ensures data[len..] == old(data[len..])
    {
      hide Nonce, Iv;
      if mode == AES {
        if len % 16 != 0 {
          return false;
        }
        var iv := BuildIv(p, id, rxCounter, 16);
        Put(data, 0, p.aesOpen(key[..keyLen], iv, data[..len]));
      } else {
        if len % 8 != 0 {
          return false;
        }
        var iv := BuildIv(p, id, rxCounter, 8);
        Put(data, 0, p.tdesOpen(key[..keyLen], iv, data[..len]));
      }
      rxCounter := (rxCounter + 1) % COUNTERS;
      ok := true;
    }

    method DecryptGcm(p: Primitives, data: array<Byte>, len: nat, id: Word32) returns (ok: bool)
      requires Lawful(p) && WellFormed() && 0 < len <= data.Length && mode == GCM
      requires data != key && data != rc4Tx.s && data != rc4Rx.s
      modifies this`rxCounter, data
      ensures WellFormed() && (ok ==> TAG <= len)
      ensures len < TAG ==> !ok
      ensures TAG <= len ==>
        var text := p.gcmOpen(key[..keyLen], Nonce(id, old(rxCounter)), Big(id, 4),
                              old(data[..len - TAG]), old(data[len - TAG..len]));
        ok == text.Some? && (ok ==> data[..len - TAG] == text.value && rxCounter == Tick(old(rxCounter)))
      ensures !ok ==> rxCounter == old(rxCounter)
    {
      hide Nonce, Big;
      if len < TAG {
        return false;
      }
      var nonce := BuildNonce(id, rxCounter);
      var aad := new Byte[4](_ => 0);
      WriteBe32(aad, 0, id);
      assert aad[..] == aad[0..4];
      var n := len - TAG;
      var text := p.gcmOpen(key[..keyLen], nonce[..], aad[..], data[..n], data[n..len]);
      if text.None? {
        return false;
      }
      Put(data, 0, text.value);
      rxCounter := (rxCounter + 1) % COUNTERS;
      ok := true;
    }

    method Decrypt(p: Primitives, data: array<Byte>, len: nat, id: Word32) returns (ok: bool, outLen: nat)
      requires Lawful(p) && WellFormed() && len <= data.Length
      requires data != key && data != rc4Tx.s && data != rc4Rx.s
      modifies this`rxCounter, data, rc4Rx`i, rc4Rx`j, rc4Rx`ready, rc4Rx.s
      ensures WellFormed()
      ensures ok == Session.Decrypt(p, old(View()), old(data[..len]), id).Done?
      ensures ok ==> outLen <= len
      ensures ok ==> Session.Decrypt(p, old(View()), old(data[..len]), id) == Done(View(), data[..outLen])
      ensures !ok ==> outLen == len && View() == old(View())
    {
      hide Nonce, Iv, Big, R.Stream, R.After, R.Start;
      outLen := len;
      if len == 0 {
        return false, len;
      }
      if mode == NONE {
        ok := true;
      } else if mode == RC4 {
        ok := Rc4Run(rc4Rx, data, len);
      } else if mode == AES || mode == TDES {
        ok := DecryptCbc(p, data, len, id);
      } else {
        ghost var text := data[..len];
        ok := DecryptGcm(p, data, len, id);
        if TAG <= len {
          assert text[..len - TAG] == old(data[..len - TAG]) && text[len - TAG..] == old(data[len - TAG..len]);
        }
        if ok {
          outLen := len - TAG;
        }
      }
    }
  }
}
