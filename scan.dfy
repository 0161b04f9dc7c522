/**
 * Collecting the answers to the ARP broadcast of `scan_network`. The probe
 * itself and the network call are outside the model: the answered list
 * arrives as a sequence of replies, each carrying the responder's IPv4
 * address (`psrc`) and hardware address (`hwsrc`) as text.
 */
module Scan {
  import opened OrderedDict

  datatype ArpReply = ArpReply(psrc: string, hwsrc: string)

  /** The responders' addresses, in the order the replies arrived. */
  function Addresses(answers: seq<ArpReply>): (ips: seq<string>)
    ensures |ips| == |answers|
    ensures forall j :: 0 <= j < |answers| ==> ips[j] == answers[j].psrc
  {
    seq(|answers|, j requires 0 <= j < |answers| => answers[j].psrc)
  }

  /** The elements of `s`, each once, in order of first occurrence. */
  function FirstOccurrences(s: seq<string>): seq<string>
  {
    if s == [] then []
    else
      var seen := FirstOccurrences(s[..|s| - 1]);
      if s[|s| - 1] in seen then seen else seen + [s[|s| - 1]]
  }

  /** `FirstOccurrences(s)` holds exactly the elements of `s`, none twice. */
  lemma {:induction false} FirstOccurrencesDistinct(s: seq<string>)
    ensures forall x :: x in FirstOccurrences(s) <==> x in s
    ensures forall a, b :: 0 <= a < b < |FirstOccurrences(s)| ==>
              FirstOccurrences(s)[a] != FirstOccurrences(s)[b]
  {
    if s != [] {
      var init := s[..|s| - 1];
      FirstOccurrencesDistinct(init);
      assert s == init + [s[|s| - 1]];
    }
  }

  /** No reply after the `j`-th comes from the same address. */
  ghost predicate LastReplyFrom(answers: seq<ArpReply>, j: int)
    requires 0 <= j < |answers|
  {
    forall k :: j < k < |answers| ==> answers[k].psrc != answers[j].psrc
  }

  /** The dict `devices` after the loop has run over all of `answers`. */
  function Collected(answers: seq<ArpReply>): Dict<string, string>
  {
    if answers == [] then []
    else
      var last := answers[|answers| - 1];
      Put(Collected(answers[..|answers| - 1]), last.psrc, last.hwsrc)
  }

  /** The collected dict is a well-formed dict: no address occurs twice. */
  lemma {:induction false} CollectedUnique(answers: seq<ArpReply>)
    ensures UniqueKeys(Collected(answers))
  {
    if answers != [] {
      var last := answers[|answers| - 1];
      CollectedUnique(answers[..|answers| - 1]);
      PutUnique(Collected(answers[..|answers| - 1]), last.psrc, last.hwsrc);
    }
  }

  /**
   * The keys of the collected dict are the distinct responding addresses,
   * in the order in which each first replied.
   */
  lemma {:induction false} CollectedKeys(answers: seq<ArpReply>)
    ensures Keys(Collected(answers)) == FirstOccurrences(Addresses(answers))
    ensures forall ip :: ip in ToMap(Collected(answers)) <==> ip in Addresses(answers)
  {
    if answers != [] {
      var init := answers[..|answers| - 1];
      CollectedKeys(init);
      assert Addresses(answers)[..|answers| - 1] == Addresses(init);
    }
    FirstOccurrencesDistinct(Addresses(answers));
  }

  /**
   * An address maps to the hardware address of the LAST reply from it: a
   * later reply for the same address overwrites an earlier one.
   */
  lemma {:induction false} CollectedLastWins(answers: seq<ArpReply>, j: int)
    requires 0 <= j < |answers|
    requires LastReplyFrom(answers, j)
    ensures answers[j].psrc in ToMap(Collected(answers))
    ensures ToMap(Collected(answers))[answers[j].psrc] == answers[j].hwsrc
  {
    var init := answers[..|answers| - 1];
    var last := answers[|answers| - 1];
    CollectedUnique(init);
    PutValue(Collected(init), last.psrc, last.hwsrc);
    if j < |answers| - 1 {
      CollectedLastWins(init, j);
    }
  }

  /**
   * The loop of `scan_network`: `devices[psrc] = hwsrc` for every reply.
   * What the result holds is stated by the lemmas about `Collected` above.
   */
  method CollectReplies(answers: seq<ArpReply>) returns (devices: Dict<string, string>)
    ensures devices == Collected(answers)
    ensures UniqueKeys(devices)
  {
    devices := [];
    for i := 0 to |answers|
      invariant devices == Collected(answers[..i])
    {
      assert answers[..i + 1][..i] == answers[..i];
      devices := Put(devices, answers[i].psrc, answers[i].hwsrc);
    }
    assert answers[..|answers|] == answers;
    CollectedUnique(answers);
  }
}
