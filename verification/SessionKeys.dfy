/** pkg/crypto/session_key.go: the four identifiers of one client, compared without branching. */
module SessionKeys {
  import opened Words

  datatype SessionKey = SessionKey(loginOk1: int32, loginOk2: int32, playOk1: int32, playOk2: int32) {
    predicate CheckLoginPair(l1: int32, l2: int32) {
      Or(Diff(loginOk1, l1), Diff(loginOk2, l2)) == 0
    }

    predicate CheckPlayPair(l1: int32, l2: int32, p1: int32, p2: int32) {
      Or(Or(Or(Diff(loginOk1, l1), Diff(loginOk2, l2)), Diff(playOk1, p1)), Diff(playOk2, p2)) == 0
    }
  }

  /** a ^ b on the two's-complement patterns. */
  function Diff(a: int32, b: int32): uint32 {
    Xor32(ToU32(a), ToU32(b))
  }

  lemma DiffZero(a: int32, b: int32)
    ensures Diff(a, b) == 0 <==> a == b
  {
    XorSelf(ToU32(a), ToU32(b));
  }

  /** The masks vanish exactly when every word matches. */
  lemma ChecksAreEquality(k: SessionKey, l1: int32, l2: int32, p1: int32, p2: int32)
    ensures k.CheckLoginPair(l1, l2) <==> k.loginOk1 == l1 && k.loginOk2 == l2
    ensures k.CheckPlayPair(l1, l2, p1, p2) <==> k == SessionKey(l1, l2, p1, p2)
  {
    hide Diff, Or;
    DiffZero(k.loginOk1, l1);
    DiffZero(k.loginOk2, l2);
    DiffZero(k.playOk1, p1);
    DiffZero(k.playOk2, p2);
    var (a, b, c, d) := (Diff(k.loginOk1, l1), Diff(k.loginOk2, l2), Diff(k.playOk1, p1), Diff(k.playOk2, p2));
    OrZero(a, b);
    OrZero(Or(a, b), c);
    OrZero(Or(Or(a, b), c), d);
  }
}
