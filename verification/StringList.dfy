/**
 * The linked list of exp2/exp2.3.cpp: strings are read until the sentinel and appended behind a
 * dummy head through a moving pointer, leaving one unfilled node at the tail; a second loop walks
 * from the first node to the unfilled one and prints.
 */
module StringList {

  const SENTINEL: string := "114514"

  class Node {
    var data: string
    var next: Node?

    /** malloc: neither field means anything yet. */
    constructor ()
    {
    }
  }

  /** How many strings come before the first sentinel. */
  function Before(input: seq<string>): (n: nat)
    requires SENTINEL in input
    ensures n < |input| && input[n] == SENTINEL && SENTINEL !in input[..n]
  {
    if input[0] == SENTINEL then 0 else
      assert input == [input[0]] + input[1..];
      var m := Before(input[1..]);
      assert input[..m + 1] == [input[0]] + input[1..][..m];
      m + 1
  }

  /** `spine` is the list from its first node to the unfilled one: linked in order, no repetition, ending in null. */
  ghost predicate Linked(first: Node?, spine: seq<Node>)
    reads set n | n in spine
  {
    && spine != [] && first == spine[0]
    && (forall i, j :: 0 <= i < j < |spine| ==> spine[i] != spine[j])
    && (forall i :: 0 <= i < |spine| ==> spine[i].next == if i + 1 < |spine| then spine[i + 1] else null)
  }

  /** The input must contain the sentinel: without it the loop never ends. */
  method Build(input: seq<string>) returns (head: Node, ghost spine: seq<Node>)
    requires SENTINEL in input
    ensures fresh(head) && fresh(set n | n in spine) && head !in spine
    ensures Linked(head.next, spine)
    ensures |spine| == Before(input) + 1
    ensures forall i :: 0 <= i < Before(input) ==> spine[i].data == input[i]
  {
    head := new Node();
    var scanner := new Node();
    head.next := scanner;
    spine := [scanner];
    var read := 0;
    while true
      invariant read <= Before(input)
      invariant |spine| == read + 1 && spine[read] == scanner
      invariant fresh(head) && head !in spine && head.next == spine[0]
      invariant forall i :: 0 <= i < |spine| ==> fresh(spine[i])
      invariant forall i, j :: 0 <= i < j < |spine| ==> spine[i] != spine[j]
      invariant forall i :: 0 <= i < read ==> spine[i].next == spine[i + 1] && spine[i].data == input[i]
      decreases Before(input) - read
    {
      var temp := input[read];
      assert temp == SENTINEL ==> read == Before(input) by {
        assert read < Before(input) ==> input[..Before(input)][read] == temp;
      }
      if temp == SENTINEL {
        break;
      }
      scanner.data := temp;
      var tail := new Node();
      scanner.next := tail;
      scanner := tail;
      spine := spine + [scanner];
      read := read + 1;
    }
    scanner.next := null;
  }

  /** Prints every node but the unfilled one. */
  method Print(head: Node, ghost spine: seq<Node>) returns (output: seq<string>)
    requires Linked(head.next, spine)
    ensures |output| == |spine| - 1
    ensures forall i :: 0 <= i < |output| ==> output[i] == spine[i].data
  {
    output := [];
    var scanner := head.next;
    while scanner.next != null
      invariant |output| < |spine| && scanner == spine[|output|]
      invariant scanner.next == if |output| + 1 < |spine| then spine[|output| + 1] else null
      invariant forall i :: 0 <= i < |output| ==> output[i] == spine[i].data
      decreases |spine| - |output|
    {
      output := output + [scanner.data];
      scanner := scanner.next;
    }
  }

  /** The whole program: it echoes exactly the strings before the first sentinel, in order. */
  method Echo(input: seq<string>) returns (output: seq<string>)
    requires SENTINEL in input
    ensures output == input[..Before(input)]
  {
    var head, spine := Build(input);
    output := Print(head, spine);
  }
}
