/**
  Update lookups shared within one check (internal/servers/update_pass.go): each file hash is asked for
  at most once per pass, whichever servers need it, and a failure is remembered like an answer. The
  upstream answers every hash on its own; a request for a batch may fail as a whole.
 */
module HashCache {
  import opened Options

  datatype Fetch<V> = Answered(versions: map<string, V>) | Failed

  /** What a pass remembers; `verified` is "checked" in the source. */
  datatype Memory<V> = Memory(versions: map<string, V>, verified: set<string>, errors: set<string>)

  /** What a reply says about some hashes. */
  ghost function Learned<V>(reply: Fetch<V>, hashes: set<string>): map<string, V> {
    if reply.Failed? then map[] else map h | h in hashes && h in reply.versions :: reply.versions[h]
  }

  /** The memory with a reply recorded for some hashes. */
  ghost function Recorded<V>(m: Memory<V>, reply: Fetch<V>, hashes: set<string>): Memory<V> {
    Memory(m.versions + Learned(reply, hashes), m.verified + hashes,
           if reply.Failed? then m.errors + hashes else m.errors - hashes)
  }

  /** Part of the way through a batch, with `todo` still to come. */
  ghost function Partly<V>(m: Memory<V>, reply: Fetch<V>, missing: set<string>, todo: set<string>): Memory<V> {
    Recorded(m, reply, missing - todo)
  }

  lemma PartlyMore<V>(m: Memory<V>, reply: Fetch<V>, missing: set<string>, todo: set<string>, h: string)
    requires h in todo && todo <= missing
    ensures var before := Partly(m, reply, missing, todo);
      Partly(m, reply, missing, todo - {h})
      == Memory(if reply.Answered? && h in reply.versions then before.versions[h := reply.versions[h]]
                else before.versions,
                before.verified + {h},
                if reply.Failed? then before.errors + {h} else before.errors - {h})
  {
    assert missing - (todo - {h}) == missing - todo + {h};
    LearnedMore(m.versions, reply, missing - todo, h);
  }

  lemma LearnedMore<V>(known: map<string, V>, reply: Fetch<V>, done: set<string>, h: string)
    ensures known + Learned(reply, done + {h})
         == if reply.Answered? && h in reply.versions then (known + Learned(reply, done))[h := reply.versions[h]]
            else known + Learned(reply, done)
  {
  }

  lemma PartlyEnds<V>(m: Memory<V>, reply: Fetch<V>, missing: set<string>)
    ensures Partly(m, reply, missing, missing) == m
    ensures Partly(m, reply, missing, {}) == Recorded(m, reply, missing)
  {
    assert missing - missing == {} && missing - {} == missing;
    assert m.versions + Learned(reply, {}) == m.versions;
  }

  class PassCache<V> {
    var versions: map<string, V>
    var verified: set<string>
    var errors: set<string>
    /** History: the batches sent upstream. */
    ghost var batches: seq<set<string>>

    /** No hash was sent twice; a checked hash failed, or has exactly the upstream's answer. */
    ghost predicate Valid(upstream: map<string, V>)
      reads this
    {
      && (forall i, j :: 0 <= i < j < |batches| ==> batches[i] !! batches[j])
      && (forall h :: h in verified <==> exists i :: 0 <= i < |batches| && h in batches[i])
      && (forall h :: h in versions ==> h in verified && h in upstream && versions[h] == upstream[h])
      && (forall h :: h in verified && h !in errors && h in upstream ==> h in versions)
      && errors <= verified
    }

    constructor ()
      ensures forall upstream :: Valid(upstream)
      ensures batches == []
    {
      versions, verified, errors := map[], {}, {};
      batches := [];
    }

    /** The loop that finds what this pass has not asked for yet. */
    method Missing(hashes: seq<string>) returns (missing: set<string>)
      ensures missing == (set h | h in hashes && h !in verified)
    {
      missing := {};
      for i := 0 to |hashes|
        invariant missing == set h | h in hashes[..i] && h !in verified
      {
        if hashes[i] !in verified {
          missing := missing + {hashes[i]};
        }
        assert hashes[..i + 1] == hashes[..i] + [hashes[i]];
      }
      assert hashes[..|hashes|] == hashes;
    }

    ghost function Current(): Memory<V>
      reads this
    {
      Memory(versions, verified, errors)
    }

    /** The loop that records a reply for every hash of its batch. */
    method Store(missing: set<string>, reply: Fetch<V>)
      modifies this`versions, this`verified, this`errors
      ensures Current() == Recorded(old(Current()), reply, missing)
    {
      hide Recorded, Partly;
      var todo := missing;
      PartlyEnds(Current(), reply, missing);
      while todo != {}
        invariant todo <= missing
        invariant Current() == Partly(old(Current()), reply, missing, todo)
        decreases |todo|
      {
        var h :| h in todo;
        PartlyMore(old(Current()), reply, missing, todo, h);
        todo := todo - {h};
        verified := verified + {h};
        if reply.Failed? {
          errors := errors + {h};
        } else {
          errors := errors - {h};
          if h in reply.versions {
            versions := versions[h := reply.versions[h]];
          }
        }
      }
    }

    /** The loop that builds the answer, stopping at the first hash that failed. */
    method Collect(hashes: seq<string>) returns (r: Option<map<string, V>>)
      ensures r.None? <==> exists h :: h in hashes && h in errors
      ensures r.Some? ==> r.value == map h | h in hashes && h in versions :: versions[h]
    {
      var out: map<string, V> := map[];
      for i := 0 to |hashes|
        invariant forall h :: h in hashes[..i] ==> h !in errors
        invariant out == map h | h in hashes[..i] && h in versions :: versions[h]
      {
        assert hashes[..i + 1] == hashes[..i] + [hashes[i]];
        if hashes[i] in errors {
          assert hashes[i] in hashes;
          return None;
        }
        if hashes[i] in versions {
          out := out[hashes[i] := versions[hashes[i]]];
        }
      }
      assert hashes[..|hashes|] == hashes;
      return Some(out);
    }

    /** What it means for the upstream to answer each hash on its own. */
    ghost predicate Independent(upstream: map<string, V>, fetch: set<string> -> Fetch<V>) {
      forall batch: set<string> :: fetch(batch).Answered? ==>
        forall h :: h in batch ==> (h in fetch(batch).versions <==> h in upstream)
                                   && (h in upstream ==> fetch(batch).versions[h] == upstream[h])
    }

    /** One batch is sent, and its reply remembered. */
    method Ask(missing: set<string>, ghost upstream: map<string, V>, fetch: set<string> -> Fetch<V>)
      requires Valid(upstream) && Independent(upstream, fetch) && missing !! verified
      modifies this
      ensures Valid(upstream) && batches == old(batches) + [missing]
      ensures verified == old(verified) + missing
      ensures errors == if fetch(missing).Failed? then old(errors) + missing else old(errors)
    {
      var reply := fetch(missing);
      Store(missing, reply);
      batches := batches + [missing];
      ghost var last := |batches| - 1;
      assert batches[last] == missing;
      assert forall i :: 0 <= i < last ==> batches[i] == old(batches)[i];
      forall h ensures h in verified <==> exists i :: 0 <= i < |batches| && h in batches[i] {
        if h in old(verified) {
          var i :| 0 <= i < last && h in old(batches)[i];
          assert h in batches[i];
        }
      }
    }

    /** One request of a pass. What is sent upstream is new; an answer is exactly what asking the upstream
        directly for these hashes would give; and it is an error exactly if one of these hashes is
        remembered as failed, which it is only if it was before or the batch sent now has failed. */
    method Lookup(hashes: seq<string>, ghost upstream: map<string, V>, fetch: set<string> -> Fetch<V>)
      returns (r: Option<map<string, V>>)
      requires Valid(upstream) && Independent(upstream, fetch)
      modifies this
      ensures Valid(upstream)
      ensures var missing := set h | h in hashes && h !in old(verified);
        && batches == (if missing == {} then old(batches) else old(batches) + [missing])
        && errors == (if missing != {} && fetch(missing).Failed? then old(errors) + missing else old(errors))
      ensures r.Some? ==> r.value == map h | h in hashes && h in upstream :: upstream[h]
      ensures r.None? <==> exists h :: h in hashes && h in errors
    {
      hide Independent;
      var missing := Missing(hashes);
      if missing != {} {
        Ask(missing, upstream, fetch);
      }
      forall h | h in hashes ensures h in verified {
        assert h in old(verified) || h in missing;
      }
      r := Collect(hashes);
    }
  }
}
