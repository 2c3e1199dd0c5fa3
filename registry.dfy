/**
 The host-configuration registry: the three records one configuration file
 holds, and the read-only queries over them.

 Every query is a linear scan that stops at the first entry whose name
 equal-folds the query. Each query is a method with the loop the source has,
 and each method is proved against a specification function. The lemmas
 about the specification functions state first-match, not-found and
 case-insensitivity.
 */
module Registry {
  import opened Fold

  datatype Option<T> = None | Some(value: T)

  /** A named shell command template, possibly producing continuous output. */
  datatype Operation = Operation(name: string, shellCmd: string, isStreaming: bool)

  /** One managed host and the names of the operations it permits. */
  datatype HostConfig = HostConfig(
    name: string,
    host: string,
    port: int,
    sudoForConfig: bool,
    supportedOperations: seq<string>)

  /** The contents of one configuration file. Names need not be unique. */
  datatype Config = Config(
    name: string,
    defaultSuffix: string,
    hosts: seq<HostConfig>,
    operations: seq<Operation>)

  /**
   The first position at or after `from` whose name equal-folds `q`, or None
   when there is none.
   */
  function FirstFold(names: seq<string>, q: string, from: nat): (r: Option<nat>)
    requires from <= |names|
    ensures r.Some? ==> from <= r.value < |names| && EqualFold(names[r.value], q)
    ensures r.Some? ==> forall j :: from <= j < r.value ==> !EqualFold(names[j], q)
    ensures r.None? <==> forall j :: from <= j < |names| ==> !EqualFold(names[j], q)
    decreases |names| - from
  {
    if from == |names| then None
    else if EqualFold(names[from], q) then Some(from)
    else FirstFold(names, q, from + 1)
  }

  /** The first-match position is the only one with the first-match property. */
  lemma FirstFoldUnique(names: seq<string>, q: string, i: nat)
    requires i < |names| && EqualFold(names[i], q)
    requires forall j :: 0 <= j < i ==> !EqualFold(names[j], q)
    ensures FirstFold(names, q, 0) == Some(i)
  {
  }

  /** Queries that equal-fold each other find the same position. */
  lemma {:induction false} FirstFoldCaseInsensitive(names: seq<string>, q1: string, q2: string, from: nat)
    requires from <= |names|
    requires EqualFold(q1, q2)
    ensures FirstFold(names, q1, from) == FirstFold(names, q2, from)
    decreases |names| - from
  {
    if from < |names| {
      EqualFoldSameQuery(names[from], q1, q2);
      FirstFoldCaseInsensitive(names, q1, q2, from + 1);
    }
  }

  function HostNames(hosts: seq<HostConfig>): (names: seq<string>)
    ensures |names| == |hosts|
    ensures forall i :: 0 <= i < |hosts| ==> names[i] == hosts[i].name
  {
    seq(|hosts|, i requires 0 <= i < |hosts| => hosts[i].name)
  }

  function OperationNames(ops: seq<Operation>): (names: seq<string>)
    ensures |names| == |ops|
    ensures forall i :: 0 <= i < |ops| ==> names[i] == ops[i].name
  {
    seq(|ops|, i requires 0 <= i < |ops| => ops[i].name)
  }

  /** Specification of GetHost: a copy of the first host whose name equal-folds `hostName`. */
  function FindHost(c: Config, hostName: string): (r: Option<HostConfig>)
    ensures r.None? <==> forall i :: 0 <= i < |c.hosts| ==> !EqualFold(c.hosts[i].name, hostName)
    ensures r.Some? ==>
      exists i :: 0 <= i < |c.hosts| && r.value == c.hosts[i] && EqualFold(c.hosts[i].name, hostName) &&
        forall j :: 0 <= j < i ==> !EqualFold(c.hosts[j].name, hostName)
  {
    match FirstFold(HostNames(c.hosts), hostName, 0)
    case Some(i) => Some(c.hosts[i])
    case None => None
  }

  /** Specification of GetOperation: a copy of the first operation whose name equal-folds `opName`. */
  function FindOperation(c: Config, opName: string): (r: Option<Operation>)
    ensures r.None? <==> forall i :: 0 <= i < |c.operations| ==> !EqualFold(c.operations[i].name, opName)
    ensures r.Some? ==>
      exists i :: 0 <= i < |c.operations| && r.value == c.operations[i] && EqualFold(c.operations[i].name, opName) &&
        forall j :: 0 <= j < i ==> !EqualFold(c.operations[j].name, opName)
  {
    match FirstFold(OperationNames(c.operations), opName, 0)
    case Some(i) => Some(c.operations[i])
    case None => None
  }

  /** Specification of SupportsOp: some supported operation name equal-folds `op`. */
  function Supports(h: HostConfig, op: string): (b: bool)
    ensures b <==> exists i :: 0 <= i < |h.supportedOperations| && EqualFold(op, h.supportedOperations[i])
  {
    FirstFold(h.supportedOperations, op, 0).Some?
  }

  /**
   Config.GetHost: scans the hosts in order and returns a copy of the first
   one whose name equal-folds `hostName`, or None when no name does.
   */
  method GetHost(c: Config, hostName: string) returns (r: Option<HostConfig>)
    ensures r == FindHost(c, hostName)
    ensures r.Some? ==> EqualFold(r.value.name, hostName)
    ensures r.None? <==> forall i :: 0 <= i < |c.hosts| ==> !EqualFold(c.hosts[i].name, hostName)
  {
    ghost var names := HostNames(c.hosts);
    for k := 0 to |c.hosts|
      invariant FirstFold(names, hostName, k) == FirstFold(names, hostName, 0)
    {
      if EqualFold(c.hosts[k].name, hostName) {
        return Some(c.hosts[k]);
      }
    }
    return None;
  }

  /**
   Config.GetOperation: scans the operations in order and returns a copy of
   the first one whose name equal-folds `opName`, or None when no name does.
   */
  method GetOperation(c: Config, opName: string) returns (r: Option<Operation>)
    ensures r == FindOperation(c, opName)
    ensures r.Some? ==> EqualFold(r.value.name, opName)
    ensures r.None? <==> forall i :: 0 <= i < |c.operations| ==> !EqualFold(c.operations[i].name, opName)
  {
    ghost var names := OperationNames(c.operations);
    for k := 0 to |c.operations|
      invariant FirstFold(names, opName, k) == FirstFold(names, opName, 0)
    {
      if EqualFold(c.operations[k].name, opName) {
        return Some(c.operations[k]);
      }
    }
    return None;
  }

  /**
   HostConfig.SupportsOp: true as soon as a supported operation name
   equal-folds `op`, false when none does.
   */
  method SupportsOp(h: HostConfig, op: string) returns (b: bool)
    ensures b == Supports(h, op)
    ensures b <==> exists i :: 0 <= i < |h.supportedOperations| && EqualFold(op, h.supportedOperations[i])
  {
    for k := 0 to |h.supportedOperations|
      invariant forall j :: 0 <= j < k ==> !EqualFold(op, h.supportedOperations[j])
    {
      if EqualFold(op, h.supportedOperations[k]) {
        return true;
      }
    }
    return false;
  }

  /** GetHost ignores case: queries that equal-fold each other find the same host. */
  lemma GetHostCaseInsensitive(c: Config, q1: string, q2: string)
    requires EqualFold(q1, q2)
    ensures FindHost(c, q1) == FindHost(c, q2)
  {
    FirstFoldCaseInsensitive(HostNames(c.hosts), q1, q2, 0);
  }

  /** GetOperation ignores case: queries that equal-fold each other find the same operation. */
  lemma GetOperationCaseInsensitive(c: Config, q1: string, q2: string)
    requires EqualFold(q1, q2)
    ensures FindOperation(c, q1) == FindOperation(c, q2)
  {
    FirstFoldCaseInsensitive(OperationNames(c.operations), q1, q2, 0);
  }

  /** SupportsOp ignores case. */
  lemma SupportsCaseInsensitive(h: HostConfig, q1: string, q2: string)
    requires EqualFold(q1, q2)
    ensures Supports(h, q1) == Supports(h, q2)
  {
    FirstFoldCaseInsensitive(h.supportedOperations, q1, q2, 0);
  }

  /**
   A host found by GetHost is the one at the lowest index whose name
   equal-folds the query, so duplicates after it are never returned.
   */
  lemma FindHostFirstMatch(c: Config, hostName: string, i: nat)
    requires i < |c.hosts| && EqualFold(c.hosts[i].name, hostName)
    requires forall j :: 0 <= j < i ==> !EqualFold(c.hosts[j].name, hostName)
    ensures FindHost(c, hostName) == Some(c.hosts[i])
  {
    FirstFoldUnique(HostNames(c.hosts), hostName, i);
  }

  /** The operation found by GetOperation is the one at the lowest matching index. */
  lemma FindOperationFirstMatch(c: Config, opName: string, i: nat)
    requires i < |c.operations| && EqualFold(c.operations[i].name, opName)
    requires forall j :: 0 <= j < i ==> !EqualFold(c.operations[j].name, opName)
    ensures FindOperation(c, opName) == Some(c.operations[i])
  {
    FirstFoldUnique(OperationNames(c.operations), opName, i);
  }

  /**
   A profile "prod" with one host "web1" that permits "deploy" and
   "restart": looking the host up as "WEB1" finds it, it supports "DEPLOY",
   and it does not support "rollback".
   */
  lemma ProdExample()
    ensures
      var web1 := HostConfig("web1", "", 0, false, ["deploy", "restart"]);
      var prod := Config("prod", "", [web1], []);
      && FindHost(prod, "WEB1") == Some(web1)
      && Supports(web1, "DEPLOY")
      && !Supports(web1, "rollback")
      && FindOperation(prod, "deploy") == None
  {
    var web1 := HostConfig("web1", "", 0, false, ["deploy", "restart"]);
    var prod := Config("prod", "", [web1], []);
    assert EqualFold("web1", "WEB1");
    FindHostFirstMatch(prod, "WEB1", 0);
    assert EqualFold("DEPLOY", web1.supportedOperations[0]);
    assert !EqualFold("rollback", web1.supportedOperations[0]);
    assert !EqualFold("rollback", web1.supportedOperations[1]);
  }
}
