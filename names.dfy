/**
  Dotted field paths as FieldByName reads them: strings.Split on "." and strings.Join with ".".
 */
module DottedNames {

  /** strings.Join(parts, "."). */
  function Join(parts: seq<string>): string {
    if parts == [] then ""
    else if |parts| == 1 then parts[0]
    else parts[0] + "." + Join(parts[1..])
  }

  /** The position of the first '.' in s. */
  function FirstDot(s: string): (k: nat)
    requires '.' in s
    ensures k < |s| && s[k] == '.' && '.' !in s[..k]
  {
    if s[0] == '.' then 0
    else
      assert s == [s[0]] + s[1..];
      var k := FirstDot(s[1..]);
      assert s[..k + 1] == [s[0]] + s[1..][..k];
      k + 1
  }

  /** strings.Split(s, "."): the pieces between the dots.  A string without a dot, the empty string included, is one piece. */
  function Split(s: string): (r: seq<string>)
    ensures |r| >= 1
    decreases |s|
  {
    if '.' !in s then [s]
    else
      var k := FirstDot(s);
      [s[..k]] + Split(s[k + 1..])
  }

  /** No piece of Split(s) holds a dot, and joining the pieces with dots gives s back. */
  lemma {:induction false} SplitPieces(s: string)
    ensures forall k | 0 <= k < |Split(s)| :: '.' !in Split(s)[k]
    ensures Join(Split(s)) == s
    decreases |s|
  {
    if '.' in s {
      var k := FirstDot(s);
      var rest := Split(s[k + 1..]);
      SplitPieces(s[k + 1..]);
      assert s == s[..k] + "." + s[k + 1..];
      assert Split(s) == [s[..k]] + rest;
      assert ([s[..k]] + rest)[1..] == rest;
      forall j | 0 <= j < |Split(s)| ensures '.' !in Split(s)[j] {
        if j > 0 {
          assert Split(s)[j] == rest[j - 1];
        }
      }
    }
  }

  /** Splitting the join of dot-free pieces gives the pieces back. */
  lemma {:induction false} SplitJoin(parts: seq<string>)
    requires |parts| >= 1
    requires forall k | 0 <= k < |parts| :: '.' !in parts[k]
    ensures Split(Join(parts)) == parts
  {
    if |parts| > 1 {
      var s := Join(parts);
      var p := parts[0];
      assert s == p + "." + Join(parts[1..]);
      assert s[|p|] == '.';
      assert s[..|p|] == p;
      var k := FirstDot(s);
      assert k == |p|;
      assert s[k + 1..] == Join(parts[1..]);
      SplitJoin(parts[1..]);
      assert parts == [p] + parts[1..];
    }
  }

  /** A path splits at any of its inner dots: Join(parts) is Join(parts[..k]) + "." + Join(parts[k..]). */
  lemma {:induction false} JoinAt(parts: seq<string>, k: nat)
    requires 0 < k < |parts|
    ensures Join(parts) == Join(parts[..k]) + "." + Join(parts[k..])
  {
    if k > 1 {
      JoinAt(parts[1..], k - 1);
      assert parts[1..][..k - 1] == parts[..k][1..];
      assert parts[1..][k - 1..] == parts[k..];
    } else {
      assert parts[..1] == [parts[0]];
    }
  }
}
