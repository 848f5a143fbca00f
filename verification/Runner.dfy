/** One runner's signing path (gyza/runner.py): gather inputs, resolve a combiner's siblings, sign,
    and chain every envelope to the one this runner signed before. */
module Runner {
  import opened Common
  import opened Provenance
  import opened Board
  import opened Queue

  /** Placeholder for "read nothing". */
  const ZERO_HASH: Digest := Digest("0000000000000000000000000000000000000000000000000000000000000000")

  /** The item object a runner works on; `_gather_inputs` rewrites its inputs. */
  class Item {
    const row: Row
    var inputHashes: seq<Digest>

    constructor (row: Row)
      ensures this.row == row && inputHashes == row.inputHashes
    {
      this.row, inputHashes := row, row.inputHashes;
    }
  }

  /** Outputs of the completed children in `kids` other than `self`; empty hashes are skipped. */
  function Resolved(rows: Rows, kids: seq<string>, self: string): seq<Digest>
    requires forall k :: k in kids ==> k in rows
  {
    if kids == [] then []
    else
      var n := |kids| - 1;
      var c := rows[kids[n]].completion;
      Resolved(rows, kids[..n], self)
      + if kids[n] != self && c.Some? && c.value.output.hex != "" then [c.value.output] else []
  }

  /** The members of `extra` not already in `have`; repeats within `extra` stay. */
  function Fresh(have: seq<Digest>, extra: seq<Digest>): seq<Digest> {
    if extra == [] then []
    else
      var n := |extra| - 1;
      Fresh(have, extra[..n]) + if extra[n] !in have then [extra[n]] else []
  }

  lemma {:induction false} FreshCovers(have: seq<Digest>, extra: seq<Digest>)
    ensures forall h :: h in extra ==> h in have + Fresh(have, extra)
    ensures forall h :: h in Fresh(have, extra) ==> h in extra && h !in have
  {
    if extra != [] {
      FreshCovers(have, extra[..|extra| - 1]);
      assert extra == extra[..|extra| - 1] + [extra[|extra| - 1]];
    }
  }

  lemma {:induction false} ResolvedCovers(rows: Rows, kids: seq<string>, self: string)
    requires forall k :: k in kids ==> k in rows
    ensures forall h :: h in Resolved(rows, kids, self) <==>
              exists k :: k in kids && k != self && rows[k].completion.Some?
                          && rows[k].completion.value.output == h && h.hex != ""
  {
    if kids != [] {
      var n := |kids| - 1;
      ResolvedCovers(rows, kids[..n], self);
      assert kids == kids[..n] + [kids[n]];
    }
  }

  /** Every sibling of `w` has completed and its output, unless empty, is among `inputs`. */
  ghost predicate CoversSiblings(rows: Rows, w: Row, inputs: seq<Digest>)
    requires HasParent(w)
  {
    forall k :: k in ChildrenOf(rows, w.parentId.value) && k != w.id ==>
      rows[k].completion.Some? && (rows[k].completion.value.output.hex != "" ==> rows[k].completion.value.output in inputs)
  }

  /** `_gather_inputs`: a combiner is refused while a sibling is pending; otherwise its inputs grow
      to cover every sibling's output. `kids` is the result of `children_of`. */
  method GatherInputs(rows: Rows, kids: seq<string>, item: Item) returns (refused: bool)
    requires HasParent(item.row) ==> ToSet(kids) == ChildrenOf(rows, item.row.parentId.value)
    modifies item
    ensures refused <==> !Open(rows, item.row)
    ensures refused <==>
            item.row.spec.kind == "combine" && item.row.parentId.Some? && item.row.parentId.value != ""
            && exists k :: k in rows && rows[k].parentId == item.row.parentId && k != item.row.id && rows[k].completion == None
    ensures !refused && item.row.spec.kind == "combine" && item.row.parentId.Some? && item.row.parentId.value != "" ==>
              forall k :: k in rows && rows[k].parentId == item.row.parentId && k != item.row.id ==>
                rows[k].completion.Some? && (rows[k].completion.value.output.hex != "" ==> rows[k].completion.value.output in item.inputHashes)
    ensures old(item.inputHashes) <= item.inputHashes
    ensures refused || !IsCombiner(item.row) ==> item.inputHashes == old(item.inputHashes)
    ensures !refused && IsCombiner(item.row) ==>
              CoversSiblings(rows, item.row, item.inputHashes)
    ensures !refused && IsCombiner(item.row) ==>
              forall h :: h in item.inputHashes && h !in old(item.inputHashes) ==>
                exists k :: k in ChildrenOf(rows, item.row.parentId.value) && k != item.row.id
                            && rows[k].completion.Some? && rows[k].completion.value.output == h
  {
    if item.row.spec.kind == COMBINE_KIND && HasParent(item.row) {
      if PendingSiblings(rows, item.row) != {} {
        CombinerGate(rows, item.row);
        return true;
      }
      assert forall k :: k in kids ==> k in ToSet(kids);
      var resolved := Resolved(rows, kids, item.row.id);
      var merged := item.inputHashes;
      merged := merged + Fresh(merged, resolved);
      FreshCovers(item.inputHashes, resolved);
      ResolvedCovers(rows, kids, item.row.id);
      forall k | k in ChildrenOf(rows, item.row.parentId.value) && k != item.row.id ensures rows[k].completion.Some? {
        assert k !in PendingSiblings(rows, item.row);
      }
      item.inputHashes := merged;
      assert forall k :: k in rows && rows[k].parentId == item.row.parentId ==> k in ChildrenOf(rows, item.row.parentId.value);
    }
    if IsCombiner(item.row) {
      CombinerGate(rows, item.row);
    }
    return false;
  }

  // ------------------------------------------------------------------
  // Signing
  // ------------------------------------------------------------------

  /** An agent's key and manifest: `sign` produces the signature of a payload. */
  datatype Signer = Signer(agentId: string, manifestHash: Digest, sign: Payload -> string)

  /** What the executor reported, and the clock reading taken when signing. */
  datatype Action = Action(
    intentId: string, actionId: string, inputs: seq<Digest>, context: Option<Digest>, output: Digest,
    backend: string, model: string, durationMs: int, tokensIn: int, tokensOut: int, nowNs: int)

  /** Signatures made with this key verify under the agent's own public key. */
  ghost predicate SignerOk(s: Scheme, signer: Signer) {
    forall p: Payload :: p.agentPubkey == signer.agentId ==> SigOk(s, Envelope(p, signer.sign(p)))
  }

  /** Declared inputs, or the placeholder, and then the attested context if it is not there yet. */
  function SignedInputs(a: Action): seq<Digest> {
    var declared := if a.inputs != [] then a.inputs else [ZERO_HASH];
    if a.context.Some? && a.context.value.hex != "" && a.context.value !in declared
    then declared + [a.context.value]
    else declared
  }

  /** `sign_action`: the envelope that follows `last`. */
  function NextEnvelope(s: Scheme, signer: Signer, last: Option<Envelope>, a: Action): Envelope {
    var p := Payload(a.intentId, a.actionId, signer.agentId, signer.manifestHash, SignedInputs(a), a.output,
                     if last.Some? then Some(Hash(s, last.value)) else None,
                     a.nowNs, a.backend, a.model, a.durationMs, a.tokensIn, a.tokensOut, 1);
    Envelope(p, signer.sign(p))
  }

  function LastOf(envs: seq<Envelope>): Option<Envelope> {
    if envs == [] then None else Some(envs[|envs| - 1])
  }

  /** Everything one runner instance signs for a sequence of actions. */
  function Session(s: Scheme, signer: Signer, actions: seq<Action>): seq<Envelope> {
    if actions == [] then []
    else
      var before := Session(s, signer, actions[..|actions| - 1]);
      before + [NextEnvelope(s, signer, LastOf(before), actions[|actions| - 1])]
  }

  /** The next envelope extends an accepted chain to an accepted chain. */
  lemma NextExtendsChain(s: Scheme, signer: Signer, envs: seq<Envelope>, a: Action)
    requires SignerOk(s, signer) && ChainOk(s, envs)
    ensures ChainOk(s, envs + [NextEnvelope(s, signer, LastOf(envs), a)])
  {
    var env := NextEnvelope(s, signer, LastOf(envs), a);
    var next := envs + [env];
    assert env == Envelope(env.payload, signer.sign(env.payload));
    forall i | 0 <= i < |next| ensures HopOk(s, next, i) {
      if i < |envs| {
        assert HopOk(s, envs, i);
      }
    }
  }

  /** Whatever a runner instance signs, in whatever order work reaches it, is an accepted chain. */
  lemma {:induction false} SessionAccepted(s: Scheme, signer: Signer, actions: seq<Action>)
    requires SignerOk(s, signer)
    ensures ChainOk(s, Session(s, signer, actions)) && |Session(s, signer, actions)| == |actions|
  {
    if actions != [] {
      var pre := actions[..|actions| - 1];
      SessionAccepted(s, signer, pre);
      NextExtendsChain(s, signer, Session(s, signer, pre), actions[|actions| - 1]);
    }
  }

  /** The runner keeps only its last envelope. */
  class AgentRunner {
    const s: Scheme
    const signer: Signer
    var lastEnvelope: Option<Envelope>
    ghost var actions: seq<Action>

    ghost predicate Valid()
      reads this
    {
      lastEnvelope == LastOf(Session(s, signer, actions))
    }

    constructor (s: Scheme, signer: Signer)
      ensures this.s == s && this.signer == signer && actions == [] && Valid()
    {
      this.s, this.signer, lastEnvelope, actions := s, signer, None, [];
    }

    /** The signing part of `_complete`. */
    method SignCompletion(a: Action) returns (env: Envelope)
      requires Valid()
      modifies this
      ensures Valid() && actions == old(actions) + [a]
      ensures Session(s, signer, actions) == Session(s, signer, old(actions)) + [env]
      ensures lastEnvelope == Some(env) && env.signature == signer.sign(env.payload)
      ensures env.payload == Payload(a.intentId, a.actionId, signer.agentId, signer.manifestHash, env.payload.inputHashes, a.output,
                                     if old(lastEnvelope).Some? then Some(s.hash(old(lastEnvelope).value.payload)) else None,
                                     a.nowNs, a.backend, a.model, a.durationMs, a.tokensIn, a.tokensOut, 1)
      ensures var declared := if a.inputs != [] then a.inputs else [ZERO_HASH];
              env.payload.inputHashes ==
              if a.context.None? || a.context.value.hex == "" || a.context.value in declared then declared
              else declared + [a.context.value]
    {
      var inputs := if a.inputs != [] then a.inputs else [ZERO_HASH];
      if a.context.Some? && a.context.value.hex != "" && a.context.value !in inputs {
        inputs := inputs + [a.context.value];
      }
      var parent := if lastEnvelope.Some? then Some(Hash(s, lastEnvelope.value)) else None;
      var p := Payload(a.intentId, a.actionId, signer.agentId, signer.manifestHash, inputs, a.output, parent,
                       a.nowNs, a.backend, a.model, a.durationMs, a.tokensIn, a.tokensOut, 1);
      env := Envelope(p, signer.sign(p));
      lastEnvelope := Some(env);
      actions := actions + [a];
      assert actions[..|actions| - 1] == old(actions);
    }

    /** Gather, act and sign: the envelope of a combiner commits to every sibling's output. */
    method Process(rows: Rows, kids: seq<string>, item: Item, a: Action) returns (env: Option<Envelope>)
      requires Valid()
      requires HasParent(item.row) ==> ToSet(kids) == ChildrenOf(rows, item.row.parentId.value)
      modifies this, item
      ensures Valid()
      ensures env.None? <==> !Open(rows, item.row)
      ensures env.None? ==> actions == old(actions)
      ensures env.Some? ==> Session(s, signer, actions) == Session(s, signer, old(actions)) + [env.value]
      ensures env.Some? ==> env.value.payload.intentId == item.row.lineageRoot && env.value.payload.actionId == item.row.id
      ensures env.Some? && item.row.spec.kind == "combine" && item.row.parentId.Some? && item.row.parentId.value != "" ==>
                forall k :: k in rows && rows[k].parentId == item.row.parentId && k != item.row.id ==>
                  rows[k].completion.Some?
                  && (rows[k].completion.value.output.hex != "" ==> rows[k].completion.value.output in env.value.payload.inputHashes)
      ensures env.Some? ==> forall h :: h in old(item.inputHashes) ==> h in env.value.payload.inputHashes
    {
      var refused := GatherInputs(rows, kids, item);
      if refused {
        return None;
      }
      var e := SignCompletion(a.(intentId := item.row.lineageRoot, actionId := item.row.id, inputs := item.inputHashes));
      return Some(e);
    }
  }
}
