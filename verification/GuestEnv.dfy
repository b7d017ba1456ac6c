/** The guest's environment vector (guest_env_build), against a fold over an ordered map
from names to values. */
module GuestEnv {
  import opened Descriptors

  /** A variable. */
  datatype Var = Var(name: string, value: string)

  // ----- Entries -----

  /** strchr(s, '='): where the first '=' is, or the length. */
  function Eq(s: string): (k: nat)
    ensures k <= |s| && '=' !in s[..k] && (k < |s| ==> s[k] == '=')
  {
    if s == "" || s[0] == '=' then 0
    else
      var k := Eq(s[1..]);
      assert s[..k + 1] == [s[0]] + s[1..][..k];
      k + 1
  }

  /** A "KEY=VALUE" entry with a name. */
  predicate WellFormed(s: string) {
    0 < Eq(s) < |s|
  }

  function Parse(s: string): Var
    requires Eq(s) < |s|
  {
    Var(s[..Eq(s)], s[Eq(s) + 1..])
  }

  function Render(v: Var): string {
    v.name + "=" + v.value
  }

  /** env_find's test: the entry starts with the key and '=' follows. */
  predicate Matches(e: string, key: string) {
    |key| < |e| && e[..|key|] == key && e[|key|] == '='
  }

  lemma EqIs(s: string, k: nat)
    requires k < |s| && s[k] == '=' && '=' !in s[..k]
    ensures Eq(s) == k
  {
    var q := Eq(s);
    assert forall i :: 0 <= i < q ==> s[..q][i] == s[i];
    assert forall i :: 0 <= i < k ==> s[..k][i] == s[i];
  }

  lemma MatchesIs(e: string, key: string)
    requires '=' !in key
    ensures Matches(e, key) <==> Eq(e) < |e| && Parse(e).name == key
  {
    if Matches(e, key) {
      EqIs(e, |key|);
    }
  }

  lemma RenderParses(v: Var)
    requires '=' !in v.name
    ensures Eq(Render(v)) == |v.name| < |Render(v)| && Parse(Render(v)) == v
  {
    var s := Render(v);
    assert s[..|v.name|] == v.name;
    EqIs(s, |v.name|);
    assert s[|v.name| + 1..] == v.value;
  }

  lemma ParseRenders(s: string)
    requires Eq(s) < |s|
    ensures Render(Parse(s)) == s
  {
    Rejoin(s, Eq(s));
  }

  lemma Rejoin(s: string, k: nat)
    requires k < |s| && s[k] == '='
    ensures s[..k] + "=" + s[k + 1..] == s
  {
    var r := s[..k] + "=" + s[k + 1..];
    assert |r| == |s|;
    forall i | 0 <= i < |s| ensures r[i] == s[i] {
    }
  }

  // ----- The reference: an ordered map -----

  type Env = seq<Var>

  /** Where a name is, or -1. */
  function Slot(env: Env, name: string): (i: int)
    ensures -1 <= i < |env|
    ensures i >= 0 ==> env[i].name == name
    ensures forall k :: 0 <= k < (if i < 0 then |env| else i) ==> env[k].name != name
  {
    if env == [] then -1
    else if env[0].name == name then 0
    else
      var i := Slot(env[1..], name);
      assert forall k :: 1 <= k < |env| ==> env[k] == env[1..][k - 1];
      if i < 0 then -1 else i + 1
  }

  function Get(env: Env, name: string): Option<string> {
    if Slot(env, name) < 0 then None else Some(env[Slot(env, name)].value)
  }

  /** Set a name: in its slot, or at the end. */
  function Put(env: Env, v: Var): Env {
    if Slot(env, v.name) < 0 then env + [v] else env[Slot(env, v.name) := v]
  }

  /** The base: the first entry of each name, in order. */
  function Base(host: seq<string>): Env {
    if host == [] then []
    else
      var env, e := Base(host[..|host| - 1]), host[|host| - 1];
      if !WellFormed(e) || Slot(env, Parse(e).name) >= 0 then env else env + [Parse(e)]
  }

  /** What the host sets a name to. */
  function HostValue(host: seq<string>, name: string): Option<string> {
    if host == [] then None
    else if Eq(host[0]) < |host[0]| && Parse(host[0]).name == name then Some(Parse(host[0]).value)
    else HostValue(host[1..], name)
  }

  /** What an override sets: its own value, or the host's for a bare name, or nothing if
      the host does not set that name. */
  function Effect(host: seq<string>, ov: string): Option<Var> {
    if Eq(ov) < |ov| then Some(Parse(ov))
    else
      match HostValue(host, ov)
      case None => None
      case Some(v) => Some(Var(ov, v))
  }

  /** Apply the overrides in order; an empty name is an error. */
  function Merged(host: seq<string>, env: Env, ovs: seq<string>): Option<Env> {
    if ovs == [] then Some(env)
    else
      match Merged(host, env, ovs[..|ovs| - 1])
      case None => None
      case Some(m) =>
        var ov := ovs[|ovs| - 1];
        if Eq(ov) == 0 then None
        else match Effect(host, ov) case None => Some(m) case Some(v) => Some(Put(m, v))
  }

  ghost predicate Proper(env: Env) {
    && (forall i :: 0 <= i < |env| ==> env[i].name != "" && '=' !in env[i].name)
    && (forall i, k :: 0 <= i < k < |env| ==> env[i].name != env[k].name)
  }

  lemma PutKeeps(env: Env, v: Var)
    requires Proper(env) && v.name != "" && '=' !in v.name
    ensures Proper(Put(env, v)) && |Put(env, v)| <= |env| + 1
    ensures forall i :: 0 <= i < |env| ==> Put(env, v)[i].name == env[i].name
    ensures forall name :: Get(Put(env, v), name) == if name == v.name then Some(v.value) else Get(env, name)
  {
    var i, env' := Slot(env, v.name), Put(env, v);
    forall name ensures Get(env', name) == if name == v.name then Some(v.value) else Get(env, name) {
      if name == v.name {
        SlotIs(env', if i < 0 then |env| else i, name);
      } else if Slot(env, name) >= 0 {
        SlotIs(env', Slot(env, name), name);
      }
    }
  }

  lemma SlotIs(env: Env, i: nat, name: string)
    requires i < |env| && env[i].name == name && forall k :: 0 <= k < |env| && k != i ==> env[k].name != name
    ensures Slot(env, name) == i
  {
    var s := Slot(env, name);
    assert s >= 0;
  }

  lemma {:induction false} BaseProper(host: seq<string>)
    ensures Proper(Base(host)) && |Base(host)| <= |host|
  {
    if host != [] {
      BaseProper(host[..|host| - 1]);
    }
  }

  /** A cleared base still leaves the host to import from. */
  function Start(host: seq<string>, clear: bool): Env {
    if clear then [] else Base(host)
  }

  lemma {:induction false} MergedProper(host: seq<string>, env: Env, ovs: seq<string>)
    requires Proper(env)
    ensures var m := Merged(host, env, ovs);
      m.Some? ==> Proper(m.value) && |m.value| <= |env| + |ovs|
  {
    if ovs != [] {
      var ov := ovs[|ovs| - 1];
      MergedProper(host, env, ovs[..|ovs| - 1]);
      var m, v := Merged(host, env, ovs[..|ovs| - 1]), Effect(host, ov);
      if m.Some? && Eq(ov) != 0 && v.Some? {
        PutKeeps(m.value, v.value);
      }
    }
  }

  // ----- What the reference means -----

  /** The last override that sets a name. */
  function LastSet(host: seq<string>, ovs: seq<string>, name: string): Option<string> {
    if ovs == [] then None
    else
      var v := Effect(host, ovs[|ovs| - 1]);
      if v.Some? && v.value.name == name then Some(v.value.value) else LastSet(host, ovs[..|ovs| - 1], name)
  }

  /** The last effective override of a name wins, over the base if there is none. */
  lemma {:induction false} MergedGet(host: seq<string>, env: Env, ovs: seq<string>, name: string)
    requires Proper(env)
    ensures var m, last := Merged(host, env, ovs), LastSet(host, ovs, name);
      m.Some? ==> Get(m.value, name) == if last.Some? then last else Get(env, name)
  {
    if ovs != [] {
      var ov, body := ovs[|ovs| - 1], ovs[..|ovs| - 1];
      MergedGet(host, env, body, name);
      MergedProper(host, env, body);
      var m, v := Merged(host, env, body), Effect(host, ov);
      if m.Some? && Eq(ov) != 0 && v.Some? {
        PutKeeps(m.value, v.value);
      }
    }
  }

  /** Overrides never move a name from its slot. */
  lemma {:induction false} MergedSlots(host: seq<string>, env: Env, ovs: seq<string>)
    requires Proper(env)
    ensures var m := Merged(host, env, ovs);
      m.Some? ==> |env| <= |m.value| && forall i :: 0 <= i < |env| ==> m.value[i].name == env[i].name
  {
    if ovs != [] {
      var ov, body := ovs[|ovs| - 1], ovs[..|ovs| - 1];
      MergedSlots(host, env, body);
      MergedProper(host, env, body);
      var m, v := Merged(host, env, body), Effect(host, ov);
      if m.Some? && Eq(ov) != 0 && v.Some? {
        PutKeeps(m.value, v.value);
      }
    }
  }

  /** In the base, the first host entry of a name wins: what the host's own lookup
      gives. */
  lemma {:induction false} BaseGet(host: seq<string>, name: string)
    requires name != "" && '=' !in name
    ensures Get(Base(host), name) == HostValue(host, name)
  {
    if host != [] {
      var body, e := host[..|host| - 1], host[|host| - 1];
      BaseGet(body, name);
      HostValueNext(body, e, name);
      assert host == body + [e];
      if WellFormed(e) && Slot(Base(body), Parse(e).name) < 0 {
        BaseProper(body);
        PutKeeps(Base(body), Parse(e));
      }
    }
  }

  lemma {:induction false} HostValueNext(body: seq<string>, e: string, name: string)
    ensures HostValue(body + [e], name)
         == if HostValue(body, name).Some? then HostValue(body, name)
            else if Eq(e) < |e| && Parse(e).name == name then Some(Parse(e).value) else None
  {
    if body == [] {
      assert body + [e] == [e] && [e][1..] == [];
    } else {
      HostValueNext(body[1..], e, name);
      assert (body + [e])[1..] == body[1..] + [e];
    }
  }

  // ----- guest_env_build -----

  function Rendered(env: Env): seq<string> {
    seq(|env|, i requires 0 <= i < |env| => Render(env[i]))
  }

  /** env_find: the first entry that sets the name of `token`. */
  method EnvFind(entries: seq<string>, token: string, klen: nat) returns (r: int)
    requires klen <= |token|
    ensures -1 <= r < |entries|
    ensures r >= 0 ==> Matches(entries[r], token[..klen])
    ensures forall k :: 0 <= k < (if r < 0 then |entries| else r) ==> !Matches(entries[k], token[..klen])
  {
    for i := 0 to |entries|
      invariant forall k :: 0 <= k < i ==> !Matches(entries[k], token[..klen])
    {
      if klen < |entries[i]| && entries[i][..klen] == token[..klen] && entries[i][klen] == '=' {
        return i;
      }
    }
    return -1;
  }

  /** host_lookup. */
  method HostLookup(host: seq<string>, token: string, klen: nat) returns (r: Option<string>)
    requires klen <= |token| && '=' !in token[..klen]
    ensures r == HostValue(host, token[..klen])
  {
    hide HostValue, Eq;
    var i := EnvFind(host, token, klen);
    FirstMatch(host, token[..klen], i);
    if i < 0 {
      return None;
    }
    return Some(host[i][klen + 1..]);
  }

  lemma {:induction false} FirstMatch(host: seq<string>, name: string, i: int)
    requires '=' !in name && -1 <= i < |host| && (i >= 0 ==> Matches(host[i], name))
    requires forall k :: 0 <= k < (if i < 0 then |host| else i) ==> !Matches(host[k], name)
    ensures HostValue(host, name) == if i < 0 then None else Some(host[i][|name| + 1..])
  {
    hide Eq;
    if host != [] {
      MatchesIs(host[0], name);
      if i != 0 {
        var rest := host[1..];
        assert forall k :: 0 <= k < |rest| ==> rest[k] == host[k + 1];
        FirstMatch(rest, name, if i < 0 then -1 else i - 1);
      } else {
        EqIs(host[0], |name|);
      }
    }
  }

  /** Over rendered variables, env_find finds the slot. */
  lemma FoundIsSlot(env: Env, entries: seq<string>, name: string, r: int)
    requires Proper(env) && '=' !in name && entries == Rendered(env) && -1 <= r < |env|
    requires r >= 0 ==> Matches(entries[r], name)
    requires forall k :: 0 <= k < (if r < 0 then |env| else r) ==> !Matches(entries[k], name)
    ensures Slot(env, name) == r
  {
    forall k | 0 <= k < |env| ensures Matches(entries[k], name) <==> env[k].name == name {
      RenderParses(env[k]);
      MatchesIs(entries[k], name);
    }
  }

  /** Keep the first well-formed host entry of each name. */
  method CopyHost(host: seq<string>, envp: array<string>) returns (n: nat)
    requires |host| <= envp.Length
    modifies envp
    ensures n <= |host| && envp[..n] == Rendered(Base(host))
  {
    hide Eq, Base, Rendered, Slot, Proper;
    n := 0;
    BaseStarts();
    assert host[..0] == [];
    for i := 0 to |host|
      invariant n <= i && envp[..n] == Rendered(Base(host[..i]))
    {
      var e := host[i];
      ghost var env := Base(host[..i]);
      BaseNext(host, i);
      BaseProper(host[..i]);
      RenderedSize(env);
      var klen := Eq(e);
      if 0 < klen < |e| {
        var found := EnvFind(envp[..n], e, klen);
        FoundIsSlot(env, envp[..n], e[..klen], found);
        if found < 0 {
          envp[n] := e;
          ParseRenders(e);
          RenderedAppend(env, Parse(e));
          n := n + 1;
        }
      }
    }
    assert host[..|host|] == host;
  }

  lemma BaseStarts()
    ensures Base([]) == [] && Rendered([]) == []
  {
  }

  lemma BaseNext(host: seq<string>, i: nat)
    requires i < |host|
    ensures var env, e := Base(host[..i]), host[i];
      Base(host[..i + 1]) == if !WellFormed(e) || Slot(env, Parse(e).name) >= 0 then env else env + [Parse(e)]
  {
    assert host[..i + 1][..i] == host[..i];
  }

  lemma RenderedSize(env: Env)
    ensures |Rendered(env)| == |env|
  {
  }

  lemma RenderedAppend(env: Env, v: Var)
    ensures Rendered(env + [v]) == Rendered(env) + [Render(v)]
  {
  }

  lemma RenderedPut(env: Env, v: Var)
    ensures Rendered(Put(env, v)) ==
      if Slot(env, v.name) < 0 then Rendered(env) + [Render(v)] else Rendered(env)[Slot(env, v.name) := Render(v)]
  {
    hide Slot;
  }

  /** Replace the entry of a name in its slot, or append it. */
  method PutEntry(envp: array<string>, n: nat, token: string, klen: nat, entry: string, ghost env: Env, ghost v: Var)
    returns (n': nat)
    requires n < envp.Length && envp[..n] == Rendered(env) && Proper(env) && klen <= |token| && entry == Render(v)
    requires v.name == token[..klen] && '=' !in v.name
    modifies envp
    ensures n' <= n + 1 && envp[..n'] == Rendered(Put(env, v))
  {
    hide Rendered, Slot, Proper, Put, Render;
    RenderedSize(env);
    var slot := EnvFind(envp[..n], token, klen);
    FoundIsSlot(env, envp[..n], v.name, slot);
    RenderedPut(env, v);
    if slot >= 0 {
      envp[slot] := entry;
      return n;
    }
    envp[n] := entry;
    return n + 1;
  }

  /** guest_env_build; None is the refusal of an empty override name.  The slot behind
      the last entry, for the terminator, is always there. */
  method Build(host: seq<string>, overrides: seq<string>, clear: bool) returns (r: Option<seq<string>>)
    ensures match Merged(host, Start(host, clear), overrides)
      case None => r == None
      case Some(env) => r == Some(Rendered(env)) && |r.value| <= |overrides| + if clear then 0 else |host|
  {
    hide Eq, Base, Rendered, Proper, Put, Render, HostValue, Merged;
    var cap := 1 + |overrides| + if clear then 0 else |host|;
    var envp := new string[cap](_ => "");
    var n: nat := 0;
    ghost var env := Start(host, clear);
    BaseProper(host);
    BaseStarts();
    if !clear {
      n := CopyHost(host, envp);
    }
    ProperEmpty();
    RenderedSize(env);
    MergedStarts(host, env);
    assert overrides[..0] == [];
    for i := 0 to |overrides|
      invariant n + |overrides| - i < cap && envp[..n] == Rendered(env) && Proper(env)
      invariant Merged(host, Start(host, clear), overrides[..i]) == Some(env)
    {
      var ov := overrides[i];
      var klen := Eq(ov);
      MergedNext(host, Start(host, clear), overrides, i);
      if klen == 0 {
        MergedFails(host, Start(host, clear), overrides, i + 1);
        return None;
      }
      var entry := ov;
      if klen < |ov| {
        ParseRenders(ov);
      } else {
        assert ov[..klen] == ov;
        var val := HostLookup(host, ov, klen);
        if val.None? {
          continue;
        }
        entry := ov + "=" + val.value;
        RenderIs(Var(ov, val.value));
      }
      ghost var v := Effect(host, ov).value;
      PutKeeps(env, v);
      n := PutEntry(envp, n, ov, klen, entry, env, v);
      env := Put(env, v);
    }
    assert overrides[..|overrides|] == overrides;
    RenderedSize(env);
    return Some(envp[..n]);
  }

  lemma RenderIs(v: Var)
    ensures Render(v) == v.name + "=" + v.value
  {
  }

  lemma ProperEmpty()
    ensures Proper([])
  {
  }

  lemma MergedStarts(host: seq<string>, env: Env)
    ensures Merged(host, env, []) == Some(env)
  {
  }

  lemma MergedNext(host: seq<string>, env: Env, ovs: seq<string>, i: nat)
    requires i < |ovs|
    ensures Merged(host, env, ovs[..i + 1]) ==
      match Merged(host, env, ovs[..i])
      case None => None
      case Some(m) =>
        if Eq(ovs[i]) == 0 then None
        else match Effect(host, ovs[i]) case None => Some(m) case Some(v) => Some(Put(m, v))
  {
    assert ovs[..i + 1][..i] == ovs[..i];
  }

  /** A refused prefix refuses the whole. */
  lemma {:induction false} MergedFails(host: seq<string>, env: Env, ovs: seq<string>, i: nat)
    requires i <= |ovs| && Merged(host, env, ovs[..i]) == None
    ensures Merged(host, env, ovs) == None
    decreases |ovs| - i
  {
    if i == |ovs| {
      assert ovs[..i] == ovs;
    } else {
      MergedNext(host, env, ovs, i);
      MergedFails(host, env, ovs, i + 1);
    }
  }

  /** The vector that is built sets each name once, never an empty one, to what the last
      effective override says, else to what the host's first entry of it says. */
  lemma BuiltVector(host: seq<string>, overrides: seq<string>, clear: bool, name: string)
    requires Merged(host, Start(host, clear), overrides).Some? && name != "" && '=' !in name
    ensures var env := Merged(host, Start(host, clear), overrides).value;
      && Proper(env)
      && Get(env, name) == (if LastSet(host, overrides, name).Some? then LastSet(host, overrides, name)
                            else if clear then None else HostValue(host, name))
  {
    hide Merged, Get, LastSet, HostValue;
    BaseProper(host);
    MergedProper(host, Start(host, clear), overrides);
    MergedGet(host, Start(host, clear), overrides, name);
    BaseGet(host, name);
    GetEmpty(name);
  }

  lemma GetEmpty(name: string)
    ensures Get([], name) == None
  {
  }
}
