/** The weighted die: a fixed sequence of distinct faces and a mutable weight per face. */
module Dice {
  import opened Common

  /** One row of the die's face/weight frame. */
  datatype FaceWeight = FaceWeight(face: int, weight: real)

  /** Position of `face` among `faces`. */
  function IndexOf(faces: seq<int>, face: int): (k: nat)
    requires face in faces
    ensures k < |faces| && faces[k] == face
    ensures forall j :: 0 <= j < k ==> faces[j] != face
  {
    if faces[0] == face then 0 else 1 + IndexOf(faces[1..], face)
  }

  class Die {
    /** The faces, fixed at construction. */
    const faces: seq<int>
    /** The `weights` attribute: all ones at construction and never written again. */
    const weights: seq<real>
    /** The face/weight frame; `ChangeWeight` writes here and rolls read from here. */
    var frame: seq<FaceWeight>

    ghost predicate Valid()
      reads this
    {
      && Distinct(faces)
      && |weights| == |faces|
      && (forall i :: 0 <= i < |weights| ==> weights[i] == 1.0)
      && |frame| == |faces|
      && (forall i :: 0 <= i < |frame| ==> frame[i].face == faces[i] && frame[i].weight > 0.0)
    }

    /** Initialises the faces and sets every weight to 1; duplicates are rejected by `Create`. */
    constructor (faces: seq<int>)
      requires Distinct(faces)
      ensures Valid()
      ensures this.faces == faces
      ensures forall i :: 0 <= i < |frame| ==> frame[i].weight == 1.0
    {
      this.faces := faces;
      this.weights := seq(|faces|, _ => 1.0);
      this.frame := seq(|faces|, i requires 0 <= i < |faces| => FaceWeight(faces[i], 1.0));
    }

    /** Builds a die, raising ValueError when some face repeats. */
    static method Create(faces: seq<int>) returns (r: Result<Die>)
      ensures r.Failure? <==> !Distinct(faces)
      ensures r.Failure? ==> r.error == ValueError
      ensures r.Success? ==> && fresh(r.value) && r.value.Valid() && r.value.faces == faces
                             && forall i :: 0 <= i < |r.value.frame| ==> r.value.frame[i].weight == 1.0
    {
      ElementsCard(faces);
      if |Elements(faces)| != |faces| {
        return Failure(ValueError);
      }
      var d := new Die(faces);
      return Success(d);
    }

    /** Sets the weight of one face; the face is checked before the weight. */
    method ChangeWeight(face: int, weight: real) returns (o: Outcome)
      requires Valid()
      modifies this`frame
      ensures Valid()
      ensures face !in faces ==> o == Fail(IndexError) && frame == old(frame)
      ensures face in faces && weight <= 0.0 ==> o == Fail(TypeError) && frame == old(frame)
      ensures face in faces && weight > 0.0 ==>
                o == Pass && frame == old(frame)[IndexOf(faces, face) := FaceWeight(face, weight)]
    {
      if face !in faces {
        return Fail(IndexError);
      }
      if weight <= 0.0 {
        return Fail(TypeError);
      }
      // The source assigns through a boolean mask over all rows whose face matches.
      var i := 0;
      while i < |frame|
        invariant 0 <= i <= |frame| == |faces|
        invariant forall c :: 0 <= c < |frame| ==>
                    frame[c] == if c < i && faces[c] == face then FaceWeight(face, weight) else old(frame[c])
      {
        if frame[i].face == face {
          frame := frame[i := FaceWeight(face, weight)];
        }
        i := i + 1;
      }
      o := Pass;
      var k := IndexOf(faces, face);
      assert forall c :: 0 <= c < |faces| && c != k ==> faces[c] != face;
      assert frame == old(frame)[k := FaceWeight(face, weight)];
    }

    /** Rolls the die `n` times; which face each roll shows is left to the environment. */
    method Roll(n: int) returns (r: Result<seq<int>>)
      requires Valid()
      ensures n <= 0 ==> r == Failure(TypeError)
      ensures n > 0 && faces == [] ==> r == Failure(ValueError)
      ensures n > 0 && faces != [] ==>
                r.Success? && |r.value| == n && forall x :: x in r.value ==> x in faces
    {
      if n <= 0 {
        return Failure(TypeError);
      }
      if |frame| == 0 {
        return Failure(ValueError);
      }
      var outcomes: seq<int> := [];
      while |outcomes| < n
        invariant |outcomes| <= n
        invariant forall x :: x in outcomes ==> x in faces
        decreases n - |outcomes|
      {
        var k :| 0 <= k < |frame|;
        outcomes := outcomes + [frame[k].face];
      }
      r := Success(outcomes);
    }

    /** A copy of the face/weight frame. */
    function Show(): (r: seq<FaceWeight>)
      reads this
      requires Valid()
      ensures |r| == |faces|
      ensures forall i :: 0 <= i < |r| ==> r[i].face == faces[i] && r[i].weight > 0.0
      ensures forall g :: g in faces ==> HasFace(r, g) && HasFace(frame, g) && WeightOf(r, g) == WeightOf(frame, g)
    {
      frame
    }
  }

  /** Some row of the frame carries `face`. */
  predicate HasFace(frame: seq<FaceWeight>, face: int) {
    exists i :: 0 <= i < |frame| && frame[i].face == face
  }

  /** Weight of `face` in a frame. */
  function WeightOf(frame: seq<FaceWeight>, face: int): (w: real)
    requires HasFace(frame, face)
    ensures exists i :: 0 <= i < |frame| && frame[i].face == face && frame[i].weight == w
  {
    if frame[0].face == face then frame[0].weight else WeightOf(frame[1..], face)
  }

  /** Reading the frame back after `ChangeWeight`: the changed face shows the new weight,
      every other face its old one. */
  lemma {:induction false} WeightOfUpdate(frame: seq<FaceWeight>, k: nat, face: int, weight: real, g: int)
    requires k < |frame| && frame[k].face == face
    requires forall i, j :: 0 <= i < j < |frame| ==> frame[i].face != frame[j].face
    requires HasFace(frame, g)
    ensures HasFace(frame[k := FaceWeight(face, weight)], g)
    ensures WeightOf(frame[k := FaceWeight(face, weight)], g) == if g == face then weight else WeightOf(frame, g)
  {
    var updated := frame[k := FaceWeight(face, weight)];
    var w :| 0 <= w < |frame| && frame[w].face == g;
    assert updated[w].face == g;
    if frame[0].face != g {
      assert k > 0 || g != face;
      var i :| 0 <= i < |frame| && frame[i].face == g;
      assert frame[1..][i - 1].face == g;
      if k > 0 {
        assert updated[1..] == frame[1..][k - 1 := FaceWeight(face, weight)];
        WeightOfUpdate(frame[1..], k - 1, face, weight, g);
      } else {
        assert updated[1..] == frame[1..];
      }
    } else if k > 0 {
      assert frame[0].face != frame[k].face;
    }
  }
}
