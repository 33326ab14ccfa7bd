// The raw RSA pair (RSAEP and RSADP, section 5.1 of RFC 8017) on the codec's key.

module Rsa {
  import opened Divisibility
  import opened Fermat

  const PRIMOP: int := 587
  const PRIMOQ: int := 743
  const NUME: nat := 3
  const NUMD: nat := 289875
  const MODULUS: int := PRIMOP * PRIMOQ

  function Encrypt(m: nat): nat {
    Pow(m, NUME) % MODULUS
  }

  function Decrypt(c: nat): nat {
    Pow(c, NUMD) % MODULUS
  }

  lemma KeyIsPrime()
    ensures IsPrime(PRIMOP) && IsPrime(PRIMOQ)
  {
    TrialDivision(587, 25);
    TrialDivision(743, 28);
  }

  /** Raising to e and then to d fixes every residue below p * q, including multiples of p or q. */
  lemma RsaInverse(m: nat, p: int, q: int, e: nat, d: nat, s: nat, t: nat)
    requires IsPrime(p) && IsPrime(q) && p != q && 0 <= m < p * q
    requires e * d == 1 + (p - 1) * s == 1 + (q - 1) * t
    ensures Pow(Pow(m, e) % (p * q), d) % (p * q) == m
  {
    var n := p * q;
    var c := Pow(m, e) % n;
    ModDiffers(Pow(m, e), n);
    DividesProduct(n, Pow(m, e) - c, -1);
    PowResidue(c, Pow(m, e), d, n);
    PowMultiplies(m, e, d);
    FermatStep(m, p, s);
    FermatStep(m, q, t);
    CoprimeProduct(p, q, Pow(m, e * d) - m);
    DividesSum(n, Pow(c, d) - Pow(m, e * d), Pow(m, e * d) - m);
    ModDiffers(Pow(c, d), n);
    DividesSum(n, Pow(c, d) - m, Pow(c, d) - Pow(c, d) % n);
    SmallMultipleIsZero(n, Pow(c, d) % n - m);
  }

  /** The codec's constants satisfy the key equation, so decryption inverts encryption below the modulus. */
  lemma DecryptInvertsEncrypt(m: nat)
    requires m < MODULUS
    ensures Encrypt(m) < MODULUS && Decrypt(Encrypt(m)) == m
  {
    KeyIsPrime();
    RsaInverse(m, PRIMOP, PRIMOQ, NUME, NUMD, 1484, 1172);
  }

  /** Without the bound the pair is not inverse: a value and the value plus the modulus collide. */
  lemma DecryptInvertsEncryptExactly(m: nat)
    ensures Decrypt(Encrypt(m)) == m <==> m < MODULUS
  {
    if m < MODULUS {
      DecryptInvertsEncrypt(m);
    }
  }
}
