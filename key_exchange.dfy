/**
 * src/protocol/key_exchange.rs: an X25519 exchange that is finished at most
 * once. Key generation and agreement are cryptography and are parameters:
 * the constructor receives the generated key pair, and `finish` receives the
 * derivation of the session keys from the private key and the peer's key,
 * which may fail.
 */
module KeyExchange {
  import opened Wrappers
  import opened Identity

  /** An ephemeral private key, as far as the state machine is concerned. */
  datatype PrivateKey = PrivateKey(secret: seq<int>)

  /** The session keys derived from the shared secret (encryption.rs `Keys`). */
  datatype Keys = Keys(material: seq<int>)

  datatype State = InProgress(privateKey: PrivateKey) | Completed(keys: Keys) | Errored

  datatype FinishError = AlreadyCompleted | DerivationFailed

  /**
   * What `finish` does to a state: anything but InProgress is refused and kept;
   * InProgress becomes Errored (the `mem::replace`), and then Completed when the
   * derivation succeeds.
   */
  function FinishStep(s: State, peerKey: PublicKeyBytes, derive: (PrivateKey, PublicKeyBytes) -> Option<Keys>): (State, Result<(), FinishError>)
  {
    if !s.InProgress? then (s, Err(AlreadyCompleted))
    else
      var keys := derive(s.privateKey, peerKey);
      if keys.None? then (Errored, Err(DerivationFailed)) else (Completed(keys.value), Ok(()))
  }

  /** After `finish`, whatever its outcome, the exchange is no longer in progress, and it succeeded exactly when it completed. */
  lemma FinishLeavesProgress(s: State, peerKey: PublicKeyBytes, derive: (PrivateKey, PublicKeyBytes) -> Option<Keys>)
    ensures var (t, r) := FinishStep(s, peerKey, derive);
            !t.InProgress? && (r.Ok? <==> s.InProgress? && t.Completed?) &&
            (s.InProgress? && r.Err? ==> t == Errored)
  {
  }

  /** A second `finish` always fails and leaves the state as the first one left it. */
  lemma SecondFinishFails(s: State, k1: PublicKeyBytes, k2: PublicKeyBytes,
                          d1: (PrivateKey, PublicKeyBytes) -> Option<Keys>, d2: (PrivateKey, PublicKeyBytes) -> Option<Keys>)
    ensures var t := FinishStep(s, k1, d1).0;
            FinishStep(t, k2, d2) == (t, Err(AlreadyCompleted))
  {
    FinishLeavesProgress(s, k1, d1);
  }

  class KeyExchange {
    const publicKey: PublicKeyBytes
    var state: State

    /** new: the exchange starts in progress with the freshly generated key pair. */
    constructor (privateKey: PrivateKey, publicKey: PublicKeyBytes)
      ensures state == InProgress(privateKey) && this.publicKey == publicKey
    {
      this.publicKey := publicKey;
      state := InProgress(privateKey);
    }

    /** export_public_key: the public half of the key pair. */
    function ExportPublicKey(): PublicKeyBytes {
      publicKey
    }

    /** finish: one step of the state machine; the public key is a constant and stays as it was. */
    method Finish(peerKey: PublicKeyBytes, derive: (PrivateKey, PublicKeyBytes) -> Option<Keys>) returns (r: Result<(), FinishError>)
      modifies this
      ensures (state, r) == FinishStep(old(state), peerKey, derive)
    {
      if !state.InProgress? {
        return Err(AlreadyCompleted);
      }
      var previous := state;
      state := Errored;
      var keys := derive(previous.privateKey, peerKey);
      if keys.None? {
        return Err(DerivationFailed);
      }
      state := Completed(keys.value);
      r := Ok(());
    }

    /** encryption_keys: the keys exactly when the exchange completed. */
    function EncryptionKeys(): (r: Option<Keys>)
      reads this
      ensures r.Some? <==> state.Completed?
      ensures r.Some? ==> r.value == state.keys
    {
      match state
      case Completed(k) => Some(k)
      case _ => None
    }
  }
}
