/**
 The two error classifiers of `register_hotkey`.

 An error is seen only through its debug text.  The submission-time classifier
 (applied when signing and submitting is rejected) has two outcomes; the
 finalization-time classifier (applied by the monitor task when waiting for
 finalization fails) has three, tested in the order AlreadyDone, Recoverable,
 Fatal.  Every outcome only selects a log line: none of them stops the loop.
 */
module ErrorClassifier {
  import opened Text

  datatype Kind = Recoverable | AlreadyDone | Fatal

  /** Markers of errors that are expected to clear up at a later eligible block. */
  const RecoverableMarkers: seq<string> :=
    ["TooManyConsumers", "InvalidTransaction", "Stale", "nonce", "outdated"]

  /** Markers of an identity that is already registered. */
  const AlreadyRegisteredMarkers: seq<string> :=
    ["AlreadyRegistered", "already registered", "duplicate"]

  /** `text` contains at least one of `markers`. */
  predicate ContainsAny(text: string, markers: seq<string>) {
    exists k :: 0 <= k < |markers| && Contains(text, markers[k])
  }

  /**
   Classification of an error returned by the submission call itself.  The
   chain carries a sixth test, "Transaction is outdated", that the "outdated"
   test already covers.
   */
  function ClassifySubmit(text: string): (k: Kind)
    ensures k != AlreadyDone
  {
    if Contains(text, "TooManyConsumers")
      || Contains(text, "InvalidTransaction")
      || Contains(text, "Stale")
      || Contains(text, "nonce")
      || Contains(text, "outdated")
      || Contains(text, "Transaction is outdated")
    then Recoverable
    else Fatal
  }

  /**
   Classification of an error reported while waiting for finalization.  Any
   already-registered marker makes it AlreadyDone, whatever recoverable
   markers the text also carries, and no other text is AlreadyDone; below
   that, Recoverable is exactly the five recoverable markers.
   */
  function ClassifyFinal(text: string): (k: Kind)
    ensures k == AlreadyDone <==> ContainsAny(text, AlreadyRegisteredMarkers)
    ensures k != AlreadyDone ==> (k == Recoverable <==> ContainsAny(text, RecoverableMarkers))
  {
    assert AlreadyRegisteredMarkers == ["AlreadyRegistered", "already registered", "duplicate"];
    assert ContainsAny(text, AlreadyRegisteredMarkers) <==>
      Contains(text, AlreadyRegisteredMarkers[0])
      || Contains(text, AlreadyRegisteredMarkers[1])
      || Contains(text, AlreadyRegisteredMarkers[2]);
    assert ContainsAny(text, RecoverableMarkers) <==>
      Contains(text, RecoverableMarkers[0])
      || Contains(text, RecoverableMarkers[1])
      || Contains(text, RecoverableMarkers[2])
      || Contains(text, RecoverableMarkers[3])
      || Contains(text, RecoverableMarkers[4]);
    if Contains(text, "AlreadyRegistered")
      || Contains(text, "already registered")
      || Contains(text, "duplicate")
    then AlreadyDone
    else if Contains(text, "TooManyConsumers")
      || Contains(text, "InvalidTransaction")
      || Contains(text, "Stale")
      || Contains(text, "nonce")
      || Contains(text, "outdated")
    then Recoverable
    else Fatal
  }

  /** Anything containing "Transaction is outdated" also contains "outdated". */
  lemma OutdatedSubsumed(text: string)
    requires Contains(text, "Transaction is outdated")
    ensures Contains(text, "outdated")
  {
    ContainsAt("Transaction is outdated", "outdated", 15);
    ContainsTransitive(text, "Transaction is outdated", "outdated");
  }

  /**
   The submission-time classifier reports Recoverable exactly when the text
   contains one of the five recoverable markers, and Fatal otherwise.
   */
  lemma SubmitRecoverableIff(text: string)
    ensures ClassifySubmit(text) == Recoverable <==> ContainsAny(text, RecoverableMarkers)
    ensures ClassifySubmit(text) == Fatal <==> !ContainsAny(text, RecoverableMarkers)
  {
    if Contains(text, "Transaction is outdated") {
      OutdatedSubsumed(text);
    }
    if ContainsAny(text, RecoverableMarkers) {
      var k :| 0 <= k < |RecoverableMarkers| && Contains(text, RecoverableMarkers[k]);
      assert k == 0 || k == 1 || k == 2 || k == 3 || k == 4;
    } else {
      assert !Contains(text, RecoverableMarkers[0]);
      assert !Contains(text, RecoverableMarkers[1]);
      assert !Contains(text, RecoverableMarkers[2]);
      assert !Contains(text, RecoverableMarkers[3]);
      assert !Contains(text, RecoverableMarkers[4]);
    }
  }

  /**
   Without an already-registered marker the two classifiers agree: the
   finalization outcome is Recoverable exactly on the five recoverable markers.
   */
  lemma ClassifiersAgree(text: string)
    requires !ContainsAny(text, AlreadyRegisteredMarkers)
    ensures ClassifyFinal(text) == ClassifySubmit(text)
    ensures ClassifyFinal(text) == Recoverable <==> ContainsAny(text, RecoverableMarkers)
  {
    SubmitRecoverableIff(text);
    if Contains(text, "Transaction is outdated") {
      OutdatedSubsumed(text);
    }
  }

  /**
   A "nonce" error is retried; an AlreadyRegistered one is benign at
   finalization even alongside "nonce", and retried at submission.
   */
  lemma ClassifierExamples()
    ensures ClassifySubmit("nonce too low") == Recoverable
    ensures ClassifyFinal("nonce too low") == Recoverable
    ensures ClassifyFinal("AlreadyRegistered: nonce") == AlreadyDone
    ensures ClassifySubmit("AlreadyRegistered: nonce") == Recoverable
  {
    NonceOnlyExample("nonce too low");
    AlreadyRegisteredNonceExample("AlreadyRegistered: nonce");
  }

  /** A text whose only marker is "nonce" is Recoverable in both classifiers. */
  lemma NonceOnlyExample(t: string)
    requires t == "nonce too low"
    ensures ClassifySubmit(t) == Recoverable && ClassifyFinal(t) == Recoverable
  {
    ContainsAt(t, "nonce", 0);
    FirstCharAbsent(t, "AlreadyRegistered");
    FirstCharAbsent(t, "already registered");
    FirstCharAbsent(t, "duplicate");
    assert Contains(t, RecoverableMarkers[3]);
    assert !ContainsAny(t, AlreadyRegisteredMarkers) by {
      assert !Contains(t, AlreadyRegisteredMarkers[0]);
      assert !Contains(t, AlreadyRegisteredMarkers[1]);
      assert !Contains(t, AlreadyRegisteredMarkers[2]);
    }
  }

  /**
   One example text carrying both an AlreadyRegistered marker and "nonce": it
   is AlreadyDone at finalization and, with no already-registered test at
   submission, Recoverable there.
   */
  lemma AlreadyRegisteredNonceExample(t: string)
    requires t == "AlreadyRegistered: nonce"
    ensures ClassifyFinal(t) == AlreadyDone
    ensures ClassifySubmit(t) == Recoverable
  {
    ContainsAt(t, "nonce", 19);
    ContainsAt(t, "AlreadyRegistered", 0);
    assert Contains(t, AlreadyRegisteredMarkers[0]);
  }

  /**
   The submission-time classifier has no already-registered branch: a text
   that reports an existing registration but carries no recoverable marker is
   Fatal at submission, while the same text at finalization is AlreadyDone.
   */
  lemma AlreadyRegisteredAtSubmitIsFatal(text: string)
    requires Contains(text, "AlreadyRegistered")
    requires !ContainsAny(text, RecoverableMarkers)
    ensures ClassifySubmit(text) == Fatal
    ensures ClassifyFinal(text) == AlreadyDone
  {
    SubmitRecoverableIff(text);
    assert Contains(text, AlreadyRegisteredMarkers[0]);
  }

  /** Matching is case-sensitive: "Nonce" carries no recoverable marker. */
  lemma CaseSensitive()
    ensures ClassifySubmit("Nonce") == Fatal
  {
    var t := "Nonce";
    FirstCharAbsent(t, "TooManyConsumers");
    FirstCharAbsent(t, "InvalidTransaction");
    FirstCharAbsent(t, "Stale");
    FirstCharAbsent(t, "Transaction is outdated");
    assert t != "nonce" by { assert t[0] != "nonce"[0]; }
    SameLengthContains(t, "nonce");
  }
}
