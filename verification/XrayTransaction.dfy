// backend/xray/user.go, xray.go, config_clone.go: changing the configuration of a running core.
// Whether a clone parses, a restart starts and a status check passes is decided outside.
module XrayTransactions {
  import opened Wrappers
  import opened Passwords
  import opened XrayClients
  import opened XrayConfigs

  // Busy: another restart is under way, nothing happens. Fails: the old process was stopped and
  // the new one did not come up.
  datatype Restart = Starts | Fails | Busy

  datatype Outcomes = Outcomes(clones: bool, restart: Restart, healthy: bool, restore: Restart, restoreHealthy: bool) {
    predicate Succeed() { clones && restart == Starts && healthy }
    predicate Restored() { restore == Starts && restoreHealthy }
  }

  class Core {
    var running: Config?

    method Restart(config: Config, how: Restart) returns (ok: bool)
      modifies this
      ensures ok == (how == Starts)
      ensures running == match how case Starts => config case Fails => null case Busy => old(running)
    {
      if how == Busy { return false; }
      running := null;
      if how == Fails { return false; }
      running := config;
      ok := true;
    }
  }

  // The inbound a clone takes clients and exclusion from: the last one of the same tag.
  ghost predicate IsOriginal(c: Config, i: nat, o: nat)
    requires i < |c.inbounds|
  {
    && i <= o < |c.inbounds| && c.inbounds[o].spec.tag == c.inbounds[i].spec.tag
    && forall j :: o < j < |c.inbounds| ==> c.inbounds[j].spec.tag != c.inbounds[i].spec.tag
  }

  function CopiedSpec(c: Config, i: nat, o: nat): Spec
    requires i < |c.inbounds| && o < |c.inbounds|
  {
    c.inbounds[i].spec.(exclude := c.inbounds[o].spec.exclude)
  }

  // Inbound i of c as a clone has it.
  ghost predicate IsCopy(c: Config, i: nat, o: nat, copied: Inbound)
    requires i < |c.inbounds|
    reads c.inbounds, copied
  {
    && IsOriginal(c, i, o)
    && copied.spec == CopiedSpec(c, i, o)
    && copied.clients == c.inbounds[o].clients
  }

  ghost predicate Copied(c: Config, i: nat, copied: Inbound)
    requires i < |c.inbounds|
    reads c.inbounds, copied
  {
    exists o :: IsCopy(c, i, o, copied)
  }

  lemma CopyOfOriginal(c: Config, d: Config, i: nat, o: nat)
    requires |d.inbounds| == |c.inbounds| && i < |c.inbounds| && Copied(c, i, d.inbounds[i]) && IsOriginal(c, i, o)
    ensures IsCopy(c, i, o, d.inbounds[i])
  {
    var p :| IsCopy(c, i, p, d.inbounds[i]);
    assert p == o;
  }

  // A copied inbound has tag, protocol and cipher of its own place, and exclusion and clients of the last inbound
  // with its tag.
  lemma CopyMeaning(c: Config, d: Config, i: nat, o: nat)
    requires |d.inbounds| == |c.inbounds| && i <= o < |c.inbounds| && Copied(c, i, d.inbounds[i])
    requires c.inbounds[o].spec.tag == c.inbounds[i].spec.tag
    requires forall j :: o < j < |c.inbounds| ==> c.inbounds[j].spec.tag != c.inbounds[i].spec.tag
    ensures d.inbounds[i].spec.tag == c.inbounds[i].spec.tag && d.inbounds[i].spec.protocol == c.inbounds[i].spec.protocol
    ensures d.inbounds[i].spec.cipher == c.inbounds[i].spec.cipher && d.inbounds[i].spec.exclude == c.inbounds[o].spec.exclude
    ensures d.inbounds[i].clients == c.inbounds[o].clients
  {
    CopyOfOriginal(c, d, i, o);
  }

  // Of the inbounds of one tag a clone can only reach the last.
  lemma OnlyOriginalChosen(c: Config, d: Config, i: nat, o: nat)
    requires |d.inbounds| == |c.inbounds| && forall j :: 0 <= j < |c.inbounds| ==> Copied(c, j, d.inbounds[j])
    requires i < |c.inbounds| && IsOriginal(c, i, o)
    ensures IsCopy(c, i, o, d.inbounds[i])
    ensures d.Chosen(i) <==> i == o && !d.inbounds[i].spec.exclude
  {
    CopyOfOriginal(c, d, i, o);
    assert IsOriginal(c, o, o);
    CopyOfOriginal(c, d, o, o);
    forall j | i < j < |d.inbounds| && i == o ensures d.inbounds[j].spec.tag != d.inbounds[i].spec.tag {
      var p :| IsCopy(c, j, p, d.inbounds[j]);
    }
  }

  method OriginalsByTag(c: Config) returns (byTag: map<string, nat>)
    ensures forall i :: 0 <= i < |c.inbounds| ==>
              c.inbounds[i].spec.tag in byTag && IsOriginal(c, i, byTag[c.inbounds[i].spec.tag])
  {
    byTag := map[];
    for n := 0 to |c.inbounds|
      invariant forall i :: 0 <= i < n ==>
                  && c.inbounds[i].spec.tag in byTag
                  && var o := byTag[c.inbounds[i].spec.tag];
                     i <= o < n && c.inbounds[o].spec.tag == c.inbounds[i].spec.tag
                     && forall j :: o < j < n ==> c.inbounds[j].spec.tag != c.inbounds[i].spec.tag
    {
      byTag := byTag[c.inbounds[n].spec.tag := n];
    }
  }

  // Config.Clone. Accounts are values here, so copying a map copies them; the inbounds and their
  // maps are new, and nothing done to the clone reaches the original.
  method Clone(c: Config, clones: bool) returns (r: Option<Config>)
    ensures r.Some? == clones
    ensures r.Some? ==>
              && fresh(r.value) && (forall i :: 0 <= i < |r.value.inbounds| ==> fresh(r.value.inbounds[i])) && r.value.Valid()
              && |r.value.inbounds| == |c.inbounds|
              && forall i :: 0 <= i < |c.inbounds| ==> Copied(c, i, r.value.inbounds[i])
  {
    if !clones { return None; }
    var byTag := OriginalsByTag(c);
    var copies := CopyInbounds(c, byTag);
    var cloned := new Config(copies);
    r := Some(cloned);
    forall i | 0 <= i < |c.inbounds| ensures Copied(c, i, r.value.inbounds[i]) {
      assert IsCopy(c, i, byTag[c.inbounds[i].spec.tag], r.value.inbounds[i]);
    }
  }

  // The loop of Clone, filling in what JSON does not carry.
  method CopyInbounds(c: Config, byTag: map<string, nat>) returns (copies: seq<Inbound>)
    requires forall i :: 0 <= i < |c.inbounds| ==>
               c.inbounds[i].spec.tag in byTag && IsOriginal(c, i, byTag[c.inbounds[i].spec.tag])
    ensures |copies| == |c.inbounds|
    ensures forall i :: 0 <= i < |copies| ==> fresh(copies[i])
    ensures forall i, j :: 0 <= i < j < |copies| ==> copies[i] != copies[j]
    ensures forall i :: 0 <= i < |copies| ==> IsCopy(c, i, byTag[c.inbounds[i].spec.tag], copies[i])
  {
    copies := [];
    for n := 0 to |c.inbounds|
      invariant |copies| == n
      invariant forall i :: 0 <= i < n ==> fresh(copies[i]) && allocated(copies[i])
      invariant forall i, j :: 0 <= i < j < n ==> copies[i] != copies[j]
      invariant forall i :: 0 <= i < n ==> IsCopy(c, i, byTag[c.inbounds[i].spec.tag], copies[i])
    {
      var o := byTag[c.inbounds[n].spec.tag];
      var original := c.inbounds[o];
      var copied := new Inbound(c.inbounds[n].spec.(exclude := original.spec.exclude), original.clients);
      assert IsCopy(c, n, o, copied);
      copies := copies + [copied];
    }
  }

  class Xray {
    var config: Config
    const core: Core

    constructor (config: Config, core: Core)
      ensures this.config == config && this.core == core
    {
      this.config, this.core := config, core;
    }

    method RestartCoreWithConfig(c: Config, how: Restart) returns (ok: bool)
      modifies core
      ensures ok == (how == Starts)
      ensures core.running == match how case Starts => c case Fails => null case Busy => old(core.running)
    {
      ok := core.Restart(c, how);
    }

    method RestorePreviousConfig(previous: Config, out: Outcomes) returns (ok: bool)
      modifies this`config, core
      ensures ok == out.Restored()
      ensures config == if ok then previous else old(config)
      ensures ok ==> core.running == previous
    {
      ok := RestartCoreWithConfig(previous, out.restore);
      if !ok { return false; }
      if !out.restoreHealthy { return false; }
      config := previous;
    }

    method ApplyConfigWithRestart(candidate: Config, out: Outcomes) returns (ok: bool)
      requires out.clones
      modifies this`config, core
      ensures ok == out.Succeed()
      ensures config == if ok then candidate else old(config)
      ensures ok || out.Restored() ==> core.running == config
    {
      var previous := config;
      ok := RestartCoreWithConfig(candidate, out.restart);
      if !ok {
        var restored := RestorePreviousConfig(previous, out);
        return false;
      }
      if !out.healthy {
        var restored := RestorePreviousConfig(previous, out);
        return false;
      }
      config := candidate;
    }

    // All or nothing: nil means the new configuration is in place and running, with every client
    // map rebuilt; an error leaves the very same configuration object with its client maps as
    // they were, and running again if the restore went through.
    method SyncUsers(users: seq<User>, sha: Hash, out: Outcomes) returns (ok: bool)
      requires config.Valid()
      modifies this`config, core
      ensures ok <==> out.clones && out.restart == Starts && out.healthy
      ensures config.Valid() && |config.inbounds| == |old(config).inbounds|
      ensures forall i :: 0 <= i < |old(config).inbounds| ==>
                old(config).inbounds[i].clients == old(config.inbounds[i].clients)
      ensures !ok ==> config == old(config)
      ensures ok ==> fresh(config) && (forall i :: 0 <= i < |config.inbounds| ==> fresh(config.inbounds[i])) && core.running == config
      ensures !ok && out.clones && out.restore == Starts && out.restoreHealthy ==> core.running == config
      ensures !out.clones ==> core.running == old(core.running)
      ensures ok ==> forall i: nat, o: nat {:trigger IsOriginal(old(config), i, o)} ::
                i < |config.inbounds| && IsOriginal(old(config), i, o) ==>
                && config.inbounds[i].spec == CopiedSpec(old(config), i, o)
                && config.inbounds[i].clients ==
                   var spec := config.inbounds[i].spec;
                   if spec.exclude then old(config.inbounds[o].clients) else Rebuilt(spec, users, sha)
      ensures ok ==> forall i :: 0 <= i < |config.inbounds| && !config.inbounds[i].spec.exclude ==>
                config.inbounds[i].clients == Rebuilt(config.inbounds[i].spec, users, sha)
    {
      var candidate := Clone(config, out.clones);
      if candidate.None? { return false; }
      forall i: nat, o: nat | i < |config.inbounds| && IsOriginal(config, i, o)
        ensures IsCopy(config, i, o, candidate.value.inbounds[i])
      {
        CopyOfOriginal(config, candidate.value, i, o);
      }
      candidate.value.SyncUsers(users, sha);
      ok := ApplyConfigWithRestart(candidate.value, out);
    }

    method UpdateUsersAndRestart(users: seq<User>, sha: Hash, out: Outcomes) returns (ok: bool)
      requires config.Valid()
      modifies this`config, core
      ensures ok <==> out.clones && out.restart == Starts && out.healthy
      ensures config.Valid() && |config.inbounds| == |old(config).inbounds|
      ensures forall i :: 0 <= i < |old(config).inbounds| ==>
                old(config).inbounds[i].clients == old(config.inbounds[i].clients)
      ensures !ok ==> config == old(config)
      ensures ok ==> fresh(config) && (forall i :: 0 <= i < |config.inbounds| ==> fresh(config.inbounds[i])) && core.running == config
      ensures !ok && out.clones && out.restore == Starts && out.restoreHealthy ==> core.running == config
      ensures !out.clones ==> core.running == old(core.running)
      ensures ok ==> forall i: nat, o: nat {:trigger IsOriginal(old(config), i, o)} ::
                i < |config.inbounds| && IsOriginal(old(config), i, o) ==>
                && config.inbounds[i].spec == CopiedSpec(old(config), i, o)
                && config.inbounds[i].clients ==
                   var spec, before := config.inbounds[i].spec, old(config.inbounds[o].clients);
                   if i == o && !spec.exclude then Updated(spec, before, UpdateFor(spec, users, sha), sha) else before
    {
      var candidate := Clone(config, out.clones);
      if candidate.None? { return false; }
      ghost var c := candidate.value;
      forall i: nat, o: nat | i < |c.inbounds| && IsOriginal(config, i, o)
        ensures IsCopy(config, i, o, c.inbounds[i]) && (c.Chosen(i) <==> i == o && !c.inbounds[i].spec.exclude)
      {
        OnlyOriginalChosen(config, c, i, o);
      }
      candidate.value.UpdateUsers(users, sha);
      ok := ApplyConfigWithRestart(candidate.value, out);
    }
  }
}
