/** Every DID of an Ed25519 key begins with `did:key:z6Mk`: the multicodec prefix fixes the first three digits. */
module DidPrefix {
  import opened Wrappers
  import opened Bytes
  import opened Base58

  function Pow58(k: nat): nat {
    if k == 0 then 1 else 58 * Pow58(k - 1)
  }

  /** `n` without its last `k` digits. */
  function Top(n: nat, k: nat): nat {
    if k == 0 then n else Top(n / 58, k - 1)
  }

  lemma Regroup(c: nat, p: nat, q: nat)
    ensures (c * p) * q == c * (p * q)
  {
  }

  lemma Between(n: nat, low: nat, high: nat)
    requires 58 * low <= n < 58 * high
    ensures low <= n / 58 < high
  {
  }

  lemma {:induction false} TopIs(n: nat, k: nat, q: nat)
    requires q * Pow58(k) <= n < (q + 1) * Pow58(k)
    ensures Top(n, k) == q
  {
    if k > 0 {
      var p := Pow58(k - 1);
      Regroup(58, q, p);
      Regroup(58, q + 1, p);
      Regroup(q, 58, p);
      Regroup(q + 1, 58, p);
      Between(n, q * p, (q + 1) * p);
      TopIs(n / 58, k - 1, q);
    }
  }

  lemma {:induction false} DigitsBegin(n: nat, k: nat)
    requires Top(n, k) > 0
    ensures Digits(Top(n, k)) <= Digits(n)
  {
    if k > 0 {
      DigitsBegin(n / 58, k - 1);
      assert n > 0;
      assert Digits(n) == Digits(n / 58) + [Symbol(n % 58)];
    }
  }

  lemma {:induction false} NumberJoined(a: bytes, b: bytes)
    ensures Number(a + b) == Number(a) * Pow256(|b|) + Number(b)
    decreases |b|
  {
    if b == [] {
      assert a + b == a;
    } else {
      var init, last: int := b[..|b| - 1], b[|b| - 1];
      var s := a + b;
      assert s[..|s| - 1] == a + init && s[|s| - 1] == last;
      NumberJoined(a, init);
      var x, p := Number(a), Pow256(|init|);
      assert Number(s) == (x * p + Number(init)) * 256 + last;
      hide Number;
      Regroup(256, x, p);
      Regroup(x, 256, p);
    }
  }

  lemma {:induction false} Pow58Join(a: nat, b: nat)
    ensures Pow58(a + b) == Pow58(a) * Pow58(b)
  {
    if a > 0 {
      Pow58Join(a - 1, b);
      Regroup(58, Pow58(a - 1), Pow58(b));
    }
  }

  lemma {:induction false} Pow256Join(a: nat, b: nat)
    ensures Pow256(a + b) == Pow256(a) * Pow256(b)
  {
    if a > 0 {
      Pow256Join(a - 1, b);
      Regroup(256, Pow256(a - 1), Pow256(b));
    }
  }

  lemma Pow58Is()
    ensures Pow58(44)
            == 389_790_918_707_373_377_135_528_568_990_913_592_653_094_657_612_049_369_038_476_873_218_241_589_149_696
  {
    Pow58Of11();
    hide Pow58;
    Pow58Join(11, 11);
    Pow58Join(22, 22);
  }

  lemma Pow58Of11()
    ensures Pow58(11) == 24_986_644_000_165_537_792
  {
    assert Pow58(4) == 11_316_496;
    assert Pow58(8) == 58 * (58 * (58 * (58 * Pow58(4))));
  }

  lemma Pow256Is()
    ensures Pow256(32)
            == 115_792_089_237_316_195_423_570_985_008_687_907_853_269_984_665_640_564_039_457_584_007_913_129_639_936
  {
    Powers();
    hide Pow256;
    Pow256Join(8, 8);
    Pow256Join(16, 16);
  }

  lemma FirstDigits()
    ensures Digits(18_023) == "6Mk"
  {
    assert Digits(5) == "6" && Digits(310) == "6M";
  }

  lemma KeyNumber(key: bytes)
    requires |key| == 32
    ensures var n := Number(ED25519_MULTICODEC + key); 18_023 * Pow58(44) <= n < 18_024 * Pow58(44)
  {
    NumberJoined(ED25519_MULTICODEC, key);
    NumberBound(key);
    assert Number([0xED]) == 0xED && [0xED, 0x01][..1] == [0xED] && Number(ED25519_MULTICODEC) == 0xED01;
    Pow58Is();
    Pow256Is();
    hide Number, Pow58, Pow256;
  }

  lemma DidsBegin(key: bytes)
    requires |key| == 32
    ensures PublicKeyToDid(key).Some? && "did:key:z6Mk" <= PublicKeyToDid(key).value
  {
    var b := ED25519_MULTICODEC + key;
    var n := Number(b);
    KeyNumber(key);
    TopIs(n, 44, 18_023);
    DigitsBegin(n, 44);
    FirstDigits();
    assert b[0] == 0xED && LeadingZeros(b) == 0;
    hide Digits, Number, Top, Pow58;
    assert Ones(0) + Digits(n) == Digits(n);
    assert DID_PREFIX + "6Mk" == "did:key:z6Mk";
    assert (DID_PREFIX + Digits(n))[..12] == DID_PREFIX + Digits(n)[..3];
  }
}
