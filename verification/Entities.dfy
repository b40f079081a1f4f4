/** The records shared by the analysis modules: rules.h, eventinfo.h and list_op.h under src/.

    Fields that the modelled code never assigns after creation are `const`; a C string that may be
    NULL is an `Option<string>`.
 */
module Entities {

  datatype Option<+T> = None | Some(value: T)

  /** The flags of `context_opts` (src/analysisd/rules.h:22-31). */
  datatype ContextOpt =
    | SameUser | SameSrcip | SameId | SameLocation | DifferentUrl
    | DifferentSrcgeoip | SameSrcport | SameDstport | SameDodiff

  /** One node of an `OSList`; the links are the node's neighbours in `OSList.nodes`. */
  class OSListNode<T> {
    const data: T

    constructor (data: T)
      ensures this.data == data
    {
      this.data := data;
    }
  }

  function Payload<T>(nodes: seq<OSListNode<T>>): (d: seq<T>)
    ensures |d| == |nodes| && forall i :: 0 <= i < |d| ==> d[i] == nodes[i].data
  {
    seq(|nodes|, i requires 0 <= i < |nodes| => nodes[i].data)
  }

  /** An `OSList` without a size limit, oldest node first (src/shared/list_op.c). */
  class OSList<T> {
    var nodes: seq<OSListNode<T>>

    constructor ()
      ensures nodes == []
    {
      nodes := [];
    }

    /** The stored pointers, oldest first. */
    function Data(): (d: seq<T>)
      reads this`nodes
      ensures |d| == |nodes| && forall i :: 0 <= i < |d| ==> d[i] == nodes[i].data
    {
      Payload(nodes)
    }

    /** `OSList_AddData`: appends, and the new node is then `last_node`. */
    method AddData(data: T) returns (node: OSListNode<T>)
      modifies this`nodes
      ensures fresh(node) && node.data == data
      ensures nodes == old(nodes) + [node]
      ensures Data() == old(Data()) + [data]
    {
      node := new OSListNode(data);
      nodes := nodes + [node];
    }

    /** `OSList_DeleteOldestNode`: drops the first node; an empty list is only reported. */
    method DeleteOldestNode()
      modifies this`nodes
      ensures nodes == if old(nodes) == [] then [] else old(nodes)[1..]
      ensures Data() == if old(Data()) == [] then [] else old(Data())[1..]
      ensures forall n | n in nodes :: n in old(nodes)
    {
      if nodes != [] {
        nodes := nodes[1..];
      }
    }

    /** `OSList_DeleteThisNode` for a node of this list, which is at the ghost position `k`. */
    method DeleteThisNode(thisNode: OSListNode<T>, ghost k: nat)
      requires k < |nodes| && nodes[k] == thisNode
      requires forall i :: 0 <= i < k ==> nodes[i] != thisNode
      modifies this`nodes
      ensures nodes == old(nodes)[..k] + old(nodes)[k + 1..]
      ensures Data() == old(Data())[..k] + old(Data())[k + 1..]
      ensures forall n | n in nodes :: n in old(nodes)
    {
      var i := 0;
      while nodes[i] != thisNode
        invariant 0 <= i <= k && nodes == old(nodes)
        decreases k - i
      {
        i := i + 1;
      }
      nodes := nodes[..i] + nodes[i + 1..];
    }
  }

  /** An `OSHash` (src/shared/hash_op.c); allocation does not fail. */
  class OSHash<V> {
    var table: map<string, V>

    constructor ()
      ensures table == map[]
    {
      table := map[];
    }

    /** `OSHash_Get`. */
    method Lookup(key: string) returns (data: Option<V>)
      ensures data == if key in table then Some(table[key]) else None
    {
      data := if key in table then Some(table[key]) else None;
    }

    /** `OSHash_Add`: 1 for a key that is there already, and then nothing changes; 2 otherwise. */
    method Add(key: string, data: V) returns (code: int)
      modifies this`table
      ensures code == if key in old(table) then 1 else 2
      ensures table == if key in old(table) then old(table) else old(table)[key := data]
    {
      if key in table {
        return 1;
      }
      table := table[key := data];
      return 2;
    }

    /** `OSHash_Update`: 0 for a key that is not there, 1 otherwise. */
    method Update(key: string, data: V) returns (code: int)
      modifies this`table
      ensures code == if key in old(table) then 1 else 0
      ensures table == if key in old(table) then old(table)[key := data] else old(table)
    {
      if key !in table {
        return 0;
      }
      table := table[key := data];
      return 1;
    }

    /** `OSHash_Delete`. */
    method Delete(key: string) returns (data: Option<V>)
      modifies this`table
      ensures data == if key in old(table) then Some(old(table)[key]) else None
      ensures table == old(table) - {key}
    {
      if key in table {
        data := Some(table[key]);
        table := table - {key};
      } else {
        data := None;
        assert table == table - {key};
      }
    }
  }

  /** `RuleInfo` (src/analysisd/rules.h:81-187), the fields the modelled code reads or writes. */
  class RuleInfo {
    const sigid: int
    const group: string
    const frequency: nat
    const timeframe: int
    const noAlert: bool
    const contextOpts: set<ContextOpt>
    const sameExtrainfo: bool
    const ifMatchedSid: int
    const ifMatchedRegex: Option<string -> bool>
    const ignoreTime: int
    /** Whether `ckignore` asks for a look at the ignore file. */
    const ckignore: bool

    var level: int
    var category: int
    var firedtimes: nat
    var frequencyCount: nat
    var lastEvents: array?<Option<string>>
    var sidPrevMatched: OSList?<Eventinfo>
    var sidSearch: OSList?<Eventinfo>
    var groupPrevMatched: seq<OSList<Eventinfo>>
    var groupSearch: OSList?<Eventinfo>
    var timeIgnored: int

    /** The parts of `zerorulemember` and of the option parser that the model needs. */
    constructor (sigid: int, level: int, group: string, category: int, frequency: nat, timeframe: int, noAlert: bool,
                 contextOpts: set<ContextOpt>, sameExtrainfo: bool, ifMatchedSid: int,
                 ifMatchedRegex: Option<string -> bool>, ignoreTime: int, ckignore: bool)
      ensures this.sigid == sigid && this.level == level && this.group == group && this.category == category
      ensures this.frequency == frequency && this.timeframe == timeframe && this.noAlert == noAlert
      ensures this.contextOpts == contextOpts && this.sameExtrainfo == sameExtrainfo
      ensures this.ifMatchedSid == ifMatchedSid && this.ifMatchedRegex == ifMatchedRegex
      ensures this.ignoreTime == ignoreTime && this.ckignore == ckignore && timeIgnored == 0
      ensures firedtimes == 0 && frequencyCount == 0 && lastEvents == null
      ensures sidPrevMatched == null && sidSearch == null && groupPrevMatched == [] && groupSearch == null
    {
      this.sigid, this.level, this.group, this.category := sigid, level, group, category;
      this.frequency, this.timeframe, this.noAlert := frequency, timeframe, noAlert;
      this.contextOpts, this.sameExtrainfo := contextOpts, sameExtrainfo;
      this.ifMatchedSid, this.ifMatchedRegex := ifMatchedSid, ifMatchedRegex;
      firedtimes, frequencyCount, lastEvents := 0, 0, null;
      sidPrevMatched, sidSearch, groupPrevMatched, groupSearch := null, null, [], null;
      this.ignoreTime, this.ckignore, timeIgnored := ignoreTime, ckignore, 0;
    }
  }

  /** What the decoders extracted; the correlation code only reads it. */
  datatype Decoded = Decoded(
    time: int,
    decoderType: int,
    log: string,
    fullLog: string,
    hostname: string,
    id: Option<string>,
    srcip: Option<string>,
    srcport: Option<string>,
    dstport: Option<string>,
    dstuser: Option<string>,
    url: Option<string>,
    srcgeoip: Option<string>)

  /** `Eventinfo` (src/analysisd/eventinfo.h:17-82). */
  class Eventinfo {
    const info: Decoded
    var matched: int
    var generatedRule: RuleInfo?
    var sidNodeToDelete: OSListNode?<Eventinfo>
    /** Whether `Free_Eventinfo` has released this event. */
    ghost var freed: bool

    /** `calloc`, `Zero_Eventinfo` and the decoders. */
    constructor (info: Decoded)
      ensures this.info == info && matched == 0 && generatedRule == null && sidNodeToDelete == null && !freed
    {
      this.info := info;
      matched, generatedRule, sidNodeToDelete := 0, null, null;
      freed := false;
    }
  }
}
