/** Splitting a path string into components. */
module Paths {
  import opened Bytes
  import opened Names

  datatype Option<+T> = None | Some(value: T)

  type Path = seq<seq<byte>>

  /** The components of `s`: its maximal slash-free runs, in order. */
  function Components(s: seq<byte>): (cs: Path)
    decreases |s|
  {
    if s == [] then []
    else if s[0] == SLASH then Components(s[1..])
    else
      var n := CountTo(s, SLASH);
      [s[..n]] + Components(s[n..])
  }

  /** What a path argument denotes: nothing unless its first character is a slash. */
  function Parse(path: seq<byte>): Option<Path> {
    var s := CString(path);
    if s == [] || s[0] != SLASH then None else Some(Components(s))
  }

  /** A path argument denotes something to look up exactly when it begins with a slash. */
  lemma ParseIff(path: seq<byte>)
    ensures Parse(path).Some? <==> path != [] && path[0] == 47
  {
  }

  /** What is looked up is what stands between the slash and the first NUL. */
  lemma ParseText(a: seq<byte>, b: seq<byte>)
    requires 0 !in a
    ensures Parse([47] + a) == Parse([47] + a + [0] + b) == Some(Components(a))
  {
    var s := [47] + a;
    CStringEnds(s, b);
    assert s[1..] == a && s + [0] + b == [47] + a + [0] + b;
  }

  /** Every component could be a label. */
  lemma {:induction false} ComponentsAreComponents(s: seq<byte>)
    requires 0 !in s
    ensures forall c | c in Components(s) :: IsComponent(c)
    decreases |s|
  {
    if s == [] {
    } else if s[0] == SLASH {
      ComponentsAreComponents(s[1..]);
    } else {
      var n := CountTo(s, SLASH);
      CountToStops(s, SLASH);
      ComponentsAreComponents(s[n..]);
      assert IsComponent(s[..n]);
    }
  }

  lemma NoComponents()
    ensures Components([]) == []
  {
  }

  lemma OneComponent(c: seq<byte>)
    requires c != [] && 47 !in c
    ensures Components(c) == [c]
  {
    CountToUnique(c, SLASH, |c|);
    assert c[..|c|] == c;
  }

  /**
   * A slash separates and has no other effect. With `Components([]) == []` and
   * `OneComponent` this law fixes `Components` on every string: repeated, leading and
   * trailing slashes change nothing.
   */
  lemma {:induction false} SlashSeparates(a: seq<byte>, b: seq<byte>)
    ensures Components(a + [47] + b) == Components(a) + Components(b)
    decreases |a|
  {
    var s := a + [SLASH] + b;
    if a == [] {
      assert s[1..] == b;
    } else if a[0] == SLASH {
      assert s[1..] == a[1..] + [SLASH] + b;
      SlashSeparates(a[1..], b);
    } else {
      var n := CountTo(a, SLASH);
      CountToStops(a, SLASH);
      assert s[..n] == a[..n];
      CountToUnique(s, SLASH, n);
      assert s[n..] == a[n..] + [SLASH] + b;
      SlashSeparates(a[n..], b);
    }
  }
}
