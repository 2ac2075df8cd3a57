/** Waiting for a page to settle before it is driven (packages/app-runtime-sdk/src/browser.ts). */
module PageReady {
  import opened Wrappers
  import opened Text

  const PAGE_READY_STABLE_POLLS: nat := 2

  const ABOUT_BLANK: Text := [0x61, 0x62, 0x6F, 0x75, 0x74, 0x3A, 0x62, 0x6C, 0x61, 0x6E, 0x6B]

  datatype ReadyState = Loading | Interactive | Complete

  /** One poll before the deadline: a probe that threw, or what it found of the document. */
  datatype Poll = Threw | Probed(readyState: ReadyState, href: Option<Text>)

  function TrimmedHref(poll: Poll): Text
    requires poll.Probed?
  {
    if poll.href.Some? then Trim(poll.href.value) else []
  }

  predicate IsPageReadyForAutomation(poll: Poll)
    requires poll.Probed?
  {
    TrimmedHref(poll) != [] && TrimmedHref(poll) != ABOUT_BLANK && !poll.readyState.Loading?
  }

  /** What one poll comes to: it threw, or an address and whether the page there is ready. */
  datatype Finding = Nothing | Found(href: Text, ready: bool)

  function FindingOf(poll: Poll): Finding {
    if poll.Threw? then Nothing else Found(TrimmedHref(poll), IsPageReadyForAutomation(poll))
  }

  function FindingsOf(polls: seq<Poll>): (findings: seq<Finding>)
    ensures |findings| == |polls|
    ensures forall i :: 0 <= i < |polls| ==> findings[i] == FindingOf(polls[i])
  {
    seq(|polls|, i requires 0 <= i < |polls| => FindingOf(polls[i]))
  }

  predicate IsReady(finding: Finding) {
    finding.Found? && finding.ready
  }

  /** Polls `k - 1` and `k` both found the page ready, on one address. */
  predicate StableAt(findings: seq<Finding>, k: nat) {
    0 < k < |findings| && IsReady(findings[k]) && findings[k - 1] == findings[k]
  }

  /** The wait over what its polls find: it ends at the first two in a row that agree on a ready page. */
  method AwaitStable(findings: seq<Finding>) returns (ready: bool, polled: nat)
    ensures ready <==> exists k: nat :: StableAt(findings, k)
    ensures ready ==> 0 < polled <= |findings| && StableAt(findings, polled - 1)
    ensures forall k: nat :: k + 1 < polled ==> !StableAt(findings, k)
  {
    var stableReadyPolls := 0;
    var lastReadyHref: Option<Text> := None;
    polled := 0;
    while polled < |findings|
      invariant polled <= |findings|
      invariant forall k: nat :: k < polled ==> !StableAt(findings, k)
      invariant if polled > 0 && IsReady(findings[polled - 1])
                then stableReadyPolls == 1 && lastReadyHref == Some(findings[polled - 1].href)
                else stableReadyPolls == 0
    {
      var finding := findings[polled];
      polled := polled + 1;
      if finding.Nothing? {
        stableReadyPolls := 0;
        lastReadyHref := None;
      } else if finding.ready {
        stableReadyPolls := if lastReadyHref == Some(finding.href) then stableReadyPolls + 1 else 1;
        lastReadyHref := Some(finding.href);
        if stableReadyPolls >= PAGE_READY_STABLE_POLLS {
          assert StableAt(findings, polled - 1);
          return true, polled;
        }
      } else {
        stableReadyPolls := 0;
        lastReadyHref := if finding.href == [] then None else Some(finding.href);
      }
    }
    ready := false;
  }

  /** The poll found the page, past loading, at a proper address: not blank and not "about:blank". */
  ghost predicate ReadyAt(poll: Poll, address: Text) {
    && poll.Probed? && (poll.readyState == Interactive || poll.readyState == Complete)
    && poll.href.Some? && Trim(poll.href.value) == address
    && address != [] && address != Ascii("about:blank")
  }

  lemma ReadyIsReadyAt(poll: Poll)
    ensures IsReady(FindingOf(poll)) ==> ReadyAt(poll, FindingOf(poll).href)
    ensures forall address :: ReadyAt(poll, address) ==> IsReady(FindingOf(poll)) && FindingOf(poll).href == address
  {
    assert ABOUT_BLANK == Ascii("about:blank");
    assert poll.Probed? && poll.href.None? ==> TrimmedHref(poll) == [];
  }

  /** Two polls in a row are stable exactly when both found one proper address ready. */
  lemma StableIff(polls: seq<Poll>, k: nat)
    ensures StableAt(FindingsOf(polls), k) <==>
            0 < k < |polls| && exists address :: ReadyAt(polls[k - 1], address) && ReadyAt(polls[k], address)
  {
    if 0 < k < |polls| {
      ReadyIsReadyAt(polls[k - 1]);
      ReadyIsReadyAt(polls[k]);
      assert FindingsOf(polls)[k - 1] == FindingOf(polls[k - 1]) && FindingsOf(polls)[k] == FindingOf(polls[k]);
    }
  }

  /** Times out exactly when no two polls in a row find one address ready; otherwise ends at the first that does. */
  method WaitForPageReady(polls: seq<Poll>) returns (ready: bool, polled: nat)
    ensures ready <==> exists k: nat :: StableAt(FindingsOf(polls), k)
    ensures ready ==> 0 < polled <= |polls| && StableAt(FindingsOf(polls), polled - 1)
    ensures forall k: nat :: k + 1 < polled ==> !StableAt(FindingsOf(polls), k)
  {
    ready, polled := AwaitStable(FindingsOf(polls));
  }
}
