/** What the three searches of src/analysisd/eventinfo.c count, said of the fields of the events. */
module SearchOptions {
  import opened Entities
  import opened Evidence
  import opened Searches

  /** Through a sid or group list (`SidStep`), the search stops at the newest event that is too old or marked
      with the level; among the newer ones it counts exactly those that share, or differ in, the fields the
      rule asks for.  The option for `do_diff` asks for none. */
  lemma SidCounts(d: seq<Eventinfo>, marks: Marks, rule: RuleInfo, my: Decoded, cTime: int)
    returns (stop: nat, at: seq<nat>)
    ensures stop <= |d|
    ensures forall i :: stop <= i < |d| ==>
              cTime - d[i].info.time <= rule.timeframe && (d[i] in marks ==> marks[d[i]] < rule.level)
    ensures stop > 0 ==>
              cTime - d[stop - 1].info.time > rule.timeframe
              || (d[stop - 1] in marks && marks[d[stop - 1]] >= rule.level)
    ensures var c := Visible(d, marks, SidStep(rule, my, cTime));
            |c| == |at| && forall k :: 0 <= k < |at| ==> stop <= at[k] < |d| && c[k] == d[at[k]]
    ensures forall j, k :: 0 <= j < k < |at| ==> at[j] > at[k]
    ensures var o, more := rule.contextOpts, rule.sameExtrainfo;
            forall i :: stop <= i < |d| ==>
              var e := d[i].info;
              (i in at <==>
                 && (SameId in o ==> e.id.Some? && e.id == my.id)
                 && (SameSrcip in o ==> e.srcip.Some? && e.srcip == my.srcip)
                 && (more && SameSrcport in o ==> e.srcport.Some? && e.srcport == my.srcport)
                 && (more && SameDstport in o ==> e.dstport.Some? && e.dstport == my.dstport)
                 && (more && SameUser in o ==> e.dstuser.Some? && e.dstuser == my.dstuser)
                 && (more && SameLocation in o ==> e.hostname == my.hostname)
                 && (more && DifferentUrl in o ==> e.url.Some? && my.url.Some? && e.url != my.url)
                 && (more && DifferentSrcgeoip in o ==>
                       e.srcgeoip.Some? && my.srcgeoip.Some? && e.srcgeoip != my.srcgeoip))
  {
    hide Scan;
    stop, at := ScanIsCounted(d, Judge(rule.level, Expired(rule, cTime), Agreeing(rule, my), marks));
  }

  /** The same through the event list, where fewer options count, and the decoder type and a regular expression
      count as well. */
  lemma AnyCounts(d: seq<Eventinfo>, marks: Marks, rule: RuleInfo, my: Decoded, cTime: int)
    returns (stop: nat, at: seq<nat>)
    ensures stop <= |d|
    ensures forall i :: stop <= i < |d| ==>
              cTime - d[i].info.time <= rule.timeframe && (d[i] in marks ==> marks[d[i]] < rule.level)
    ensures stop > 0 ==>
              cTime - d[stop - 1].info.time > rule.timeframe
              || (d[stop - 1] in marks && marks[d[stop - 1]] >= rule.level)
    ensures var c := Visible(d, marks, AnyStep(rule, my, cTime));
            |c| == |at| && forall k :: 0 <= k < |at| ==> stop <= at[k] < |d| && c[k] == d[at[k]]
    ensures forall j, k :: 0 <= j < k < |at| ==> at[j] > at[k]
    ensures var o := rule.contextOpts;
            forall i :: stop <= i < |d| ==>
              var e := d[i].info;
              (i in at <==>
                 && e.decoderType == my.decoderType
                 && (rule.ifMatchedRegex.Some? ==> rule.ifMatchedRegex.value(e.log))
                 && (SameUser in o ==> e.dstuser.Some? && e.dstuser == my.dstuser)
                 && (SameId in o ==> e.id.Some? && e.id == my.id)
                 && (SameSrcip in o ==> e.srcip.Some? && e.srcip == my.srcip)
                 && (DifferentUrl in o ==> e.url.Some? && my.url.Some? && e.url != my.url)
                 && (DifferentSrcgeoip in o ==>
                       e.srcgeoip.Some? && my.srcgeoip.Some? && e.srcgeoip != my.srcgeoip))
  {
    hide Scan;
    stop, at := ScanIsCounted(d, Judge(rule.level, Expired(rule, cTime), AgreeingAny(rule, my), marks));
  }

  /** So all evidence of a successful search through a list has what the rule asks for. */
  lemma SidEvidence(s: State, rule: RuleInfo, my: Decoded, cTime: int)
    ensures var o, more := rule.contextOpts, rule.sameExtrainfo;
            forall x | x in Counted(s, SidStep(rule, my, cTime)) ::
              var e := x.info;
              && (SameId in o ==> e.id.Some? && e.id == my.id)
              && (SameSrcip in o ==> e.srcip.Some? && e.srcip == my.srcip)
              && (more && SameSrcport in o ==> e.srcport.Some? && e.srcport == my.srcport)
              && (more && SameDstport in o ==> e.dstport.Some? && e.dstport == my.dstport)
              && (more && SameUser in o ==> e.dstuser.Some? && e.dstuser == my.dstuser)
              && (more && SameLocation in o ==> e.hostname == my.hostname)
              && (more && DifferentUrl in o ==> e.url.Some? && my.url.Some? && e.url != my.url)
              && (more && DifferentSrcgeoip in o ==>
                    e.srcgeoip.Some? && my.srcgeoip.Some? && e.srcgeoip != my.srcgeoip)
  {
    hide Scan;
    var t := SidStep(rule, my, cTime);
    var stop, at := SidCounts(s.d, s.marks, rule, my, cTime);
    var c := Counted(s, t);
    assert |c| <= |at| && forall k :: 0 <= k < |c| ==> c[k] == s.d[at[k]] && at[k] in at;
  }

  /** The same for the event list. */
  lemma AnyEvidence(s: State, rule: RuleInfo, my: Decoded, cTime: int)
    ensures var o := rule.contextOpts;
            forall x | x in Counted(s, AnyStep(rule, my, cTime)) ::
              var e := x.info;
              && e.decoderType == my.decoderType
              && (rule.ifMatchedRegex.Some? ==> rule.ifMatchedRegex.value(e.log))
              && (SameUser in o ==> e.dstuser.Some? && e.dstuser == my.dstuser)
              && (SameId in o ==> e.id.Some? && e.id == my.id)
              && (SameSrcip in o ==> e.srcip.Some? && e.srcip == my.srcip)
              && (DifferentUrl in o ==> e.url.Some? && my.url.Some? && e.url != my.url)
              && (DifferentSrcgeoip in o ==>
                    e.srcgeoip.Some? && my.srcgeoip.Some? && e.srcgeoip != my.srcgeoip)
  {
    hide Scan;
    var t := AnyStep(rule, my, cTime);
    var stop, at := AnyCounts(s.d, s.marks, rule, my, cTime);
    var c := Counted(s, t);
    assert |c| <= |at| && forall k :: 0 <= k < |c| ==> c[k] == s.d[at[k]] && at[k] in at;
  }
}
