/**
 Views of a graphics trace: the render passes it issues and the mip slots it
 copies into, in order.
 */
module Traces {

  import opened Graphics
  import opened MipCascade

  /** The render passes of `tr`, in issue order. */
  function Passes(tr: seq<Event>): (ps: seq<Event>)
    ensures |ps| <= |tr|
    ensures forall i :: 0 <= i < |ps| ==> ps[i].RenderPass?
  {
    if tr == [] then []
    else if tr[0].RenderPass? then [tr[0]] + Passes(tr[1..])
    else Passes(tr[1..])
  }

  /** The subresource indices `tr` copies into, in issue order. */
  function MipCopies(tr: seq<Event>): (ms: seq<nat>)
    ensures |ms| <= |tr|
  {
    if tr == [] then []
    else if tr[0].CopyToMip? then [tr[0].mip] + MipCopies(tr[1..])
    else MipCopies(tr[1..])
  }

  /** No render pass and no mip copy anywhere in `tr`. */
  predicate NoMipWork(tr: seq<Event>) {
    forall i :: 0 <= i < |tr| ==> !tr[i].RenderPass? && !tr[i].CopyToMip?
  }

  lemma {:induction false} PassesAppend(a: seq<Event>, b: seq<Event>)
    ensures Passes(a + b) == Passes(a) + Passes(b)
    ensures MipCopies(a + b) == MipCopies(a) + MipCopies(b)
  {
    if a == [] {
      assert a + b == b;
    } else {
      assert (a + b)[1..] == a[1..] + b;
      PassesAppend(a[1..], b);
    }
  }

  lemma {:induction false} NoMipWorkIsEmpty(tr: seq<Event>)
    requires NoMipWork(tr)
    ensures Passes(tr) == [] && MipCopies(tr) == []
  {
    if tr != [] {
      NoMipWorkIsEmpty(tr[1..]);
    }
  }

  /**
   The cascade from `mip` renders levels `mip - 1 .. levels - 2` in order;
   the pass for level `mip - 1 + i` renders at the entry size halved i + 1 times.
   */
  lemma {:induction false} CascadePasses(mip: nat, levels: nat, width: nat, height: nat, technique: string,
                                         strength: real, into: ColorFormat, vertices: nat)
    requires 1 <= mip
    decreases levels - mip
    ensures var ps := Passes(Cascade(mip, levels, width, height, technique, strength, into, vertices));
      && |ps| == (if mip < levels then levels - mip else 0)
      && forall i :: 0 <= i < |ps| ==>
           ps[i] == PassFor(mip + i, LevelSize(width, i + 1), LevelSize(height, i + 1),
                            technique, strength, into, vertices)
  {
    var c := Cascade(mip, levels, width, height, technique, strength, into, vertices);
    if mip < levels {
      var w, h := width / 2, height / 2;
      var rest := Cascade(mip + 1, levels, w, h, technique, strength, into, vertices);
      var head := [PassFor(mip, w, h, technique, strength, into, vertices), CopyToMip(mip)];
      assert c == head + rest;
      CascadePasses(mip + 1, levels, w, h, technique, strength, into, vertices);
      PassesAppend(head, rest);
      assert head[1..][1..] == [];
      assert Passes(head) == [head[0]];
      var ps := Passes(c);
      assert ps == [head[0]] + Passes(rest);
      forall i | 0 <= i < |ps|
        ensures ps[i] == PassFor(mip + i, LevelSize(width, i + 1), LevelSize(height, i + 1),
                                 technique, strength, into, vertices)
      {
        if i > 0 {
          assert ps[i] == Passes(rest)[i - 1];
          HalvedLevelSize(width, i);
          HalvedLevelSize(height, i);
        }
      }
    } else {
      assert c == [];
    }
  }

  /** The cascade from `mip` copies into subresources `mip .. levels - 1`, in order. */
  lemma {:induction false} CascadeCopies(mip: nat, levels: nat, width: nat, height: nat, technique: string,
                                         strength: real, into: ColorFormat, vertices: nat)
    requires 1 <= mip
    decreases levels - mip
    ensures MipCopies(Cascade(mip, levels, width, height, technique, strength, into, vertices))
            == seq(if mip < levels then levels - mip else 0, i => mip + i)
  {
    var c := Cascade(mip, levels, width, height, technique, strength, into, vertices);
    if mip < levels {
      var w, h := width / 2, height / 2;
      var rest := Cascade(mip + 1, levels, w, h, technique, strength, into, vertices);
      var head := [PassFor(mip, w, h, technique, strength, into, vertices), CopyToMip(mip)];
      assert c == head + rest;
      CascadeCopies(mip + 1, levels, w, h, technique, strength, into, vertices);
      PassesAppend(head, rest);
      assert head[1..][1..] == [];
      assert MipCopies(head) == [mip];
    } else {
      assert c == [];
    }
  }

  /** Every render pass of a trace appears in its list of passes. */
  lemma {:induction false} PassInPasses(tr: seq<Event>, e: Event)
    requires e in tr && e.RenderPass?
    ensures e in Passes(tr)
  {
    if tr[0] != e {
      PassInPasses(tr[1..], e);
    }
  }
}
