/** The circular list of user phrases behind its sentinel, and the three operations on it
    (src/im/pinyin/py.c:1540-1637). */
module PhraseRing {
  import opened Pyfa
  import opened PyParser
  import opened Dictionary
  import opened Keyed
  import opened Splicing
  import opened UserPhrases

  class PyUsrPhrase {
    var phrase: Phrase
    var next: PyUsrPhrase

    constructor (phrase: Phrase)
      ensures this.phrase == phrase && next == this
    {
      this.phrase, next := phrase, this;
    }
  }

  class Ring {
    const userPhrase: PyUsrPhrase
    var iUserPhrase: nat
    ghost var nodes: seq<PyUsrPhrase>
    ghost var contents: seq<Phrase>

    ghost function Node(i: nat): PyUsrPhrase
      requires i <= |nodes| && nodes != []
      reads this
    {
      if i == |nodes| then nodes[0] else nodes[i]
    }

    /** From the sentinel the ring closes after exactly iUserPhrase phrases. */
    ghost predicate Valid()
      reads this, nodes
    {
      && |nodes| == iUserPhrase + 1 && |contents| == iUserPhrase && nodes[0] == userPhrase
      && Distinct(nodes)
      && (forall i {:trigger nodes[i].next} :: 0 <= i < |nodes| ==> nodes[i].next == Node(i + 1))
      && (forall i {:trigger nodes[i].phrase} :: 0 < i < |nodes| ==> nodes[i].phrase == contents[i - 1])
    }

    constructor ()
      ensures Valid() && contents == [] && fresh(nodes)
    {
      userPhrase := new PyUsrPhrase(Phrase("", "", 0, 0));
      iUserPhrase := 0;
      new;
      nodes, contents := [userPhrase], [];
    }

    lemma AtNode(i: nat)
      requires Valid() && i <= iUserPhrase
      ensures nodes[i].next == Node(i + 1)
      ensures i > 0 ==> nodes[i].phrase == contents[i - 1] && nodes[i] != userPhrase
    {
    }

    /** The search for an equal phrase, counted by iUserPhrase. */
    method Find(strMap: string, text: string) returns (found: bool, node: PyUsrPhrase, ghost k: nat)
      requires Valid()
      ensures k == IndexFrom(contents, strMap, text, 0)
      ensures found <==> k < |contents|
      ensures found <==> exists i :: 0 <= i < |contents| && Is(contents[i], strMap, text)
      ensures found ==> node == nodes[k + 1]
    {
      AtNode(0);
      node := userPhrase.next;
      var i := 0;
      while i < iUserPhrase
        invariant 0 <= i <= iUserPhrase && node == Node(i + 1)
        invariant IndexFrom(contents, strMap, text, 0) == IndexFrom(contents, strMap, text, i)
      {
        AtNode(i + 1);
        if strMap == node.phrase.strMap && text == node.phrase.text {
          return true, node, i;
        }
        node, i := node.next, i + 1;
      }
      found, k := false, i;
    }

    /** Counts a hit of the phrase at node k + 1. */
    method Touch(node: PyUsrPhrase, ghost k: nat, counter: nat)
      requires Valid() && k < |contents| && node == nodes[k + 1]
      modifies this`contents, nodes
      ensures Valid() && contents == old(contents)[k := Touched(old(contents)[k], counter)]
    {
      AtNode(k + 1);
      node.phrase := Touched(node.phrase, counter);
      contents := contents[k := Touched(contents[k], counter)];
    }

    /** Walks to the first phrase the new code compares above and links the phrase there. */
    method Insert(cfg: Config, sp: bool, e: Phrase)
      requires Valid() && CodeString(e.strMap) && AllCodes(contents)
      modifies this, nodes
      ensures Valid() && forall i :: 0 <= i < |nodes| ==> nodes[i] in old(nodes) || fresh(nodes[i])
      ensures var p := PlaceFrom(cfg, sp, old(contents), e.strMap, 0);
        contents == old(contents)[..p] + [e] + old(contents)[p..]
    {
      hide CodeString, Compare, Comparable;
      AtNode(0);
      var temp, node := userPhrase, userPhrase.next;
      var k := 0;
      while k < iUserPhrase
        modifies {}
        invariant 0 <= k <= iUserPhrase && temp == nodes[k] && node == Node(k + 1)
        invariant PlaceFrom(cfg, sp, contents, e.strMap, 0) == PlaceFrom(cfg, sp, contents, e.strMap, k)
      {
        AtNode(k + 1);
        CodesAreComparable(cfg, sp, e.strMap, contents[k].strMap);
        var inside, val, matched := CmpMap(cfg, e.strMap, node.phrase.strMap, sp);
        if val > 0 { break; }
        temp, node, k := node, node.next, k + 1;
      }
      PlaceIs(cfg, sp, e.strMap, k);
      LinkBehind(temp, k, e);
    }

    lemma {:induction false} PlaceIs(cfg: Config, sp: bool, strMap: string, k: nat)
      requires k <= |contents| && (k < |contents| ==> Compare(cfg, strMap, contents[k].strMap, sp) > 0)
      ensures PlaceFrom(cfg, sp, contents, strMap, k) == k
    {
    }

    /** newPhrase->next = temp->next; temp->next = newPhrase. */
    method LinkBehind(temp: PyUsrPhrase, ghost k: nat, e: Phrase)
      requires Valid() && k <= iUserPhrase && temp == nodes[k]
      modifies this, nodes
      ensures Valid() && contents == old(contents)[..k] + [e] + old(contents)[k..]
      ensures forall i :: 0 <= i < |nodes| ==> nodes[i] in old(nodes) || fresh(nodes[i])
    {
      hide Distinct;
      ghost var before, held := nodes, contents;
      AtNode(k);
      OthersDiffer(nodes, k);
      var newPhrase := new PyUsrPhrase(e);
      newPhrase.next := temp.next;
      temp.next := newPhrase;
      iUserPhrase := iUserPhrase + 1;
      InsertDistinct(nodes, k + 1, newPhrase);
      nodes := nodes[..k + 1] + [newPhrase] + nodes[k + 1..];
      contents := contents[..k] + [e] + contents[k..];
      Spliced(before, k + 1, newPhrase);
      Spliced(held, k, e);
      forall i | 0 <= i < |nodes|
        ensures nodes[i].next == Node(i + 1)
      {
        if i < k {
          assert old(before[i].next) == before[i + 1] == nodes[i + 1];
        } else if k + 1 < i {
          assert nodes[i].next == old(before[i - 1].next);
        }
      }
      forall i | 0 < i < |nodes|
        ensures nodes[i].phrase == contents[i - 1]
      {
      }
    }

    /** PYDelUserPhrase: the ring is walked from the sentinel to the node in front of the
        phrase, which is unlinked. */
    method Delete(phrase: PyUsrPhrase, ghost k: nat)
      requires Valid() && k < |contents| && phrase == nodes[k + 1]
      modifies this, nodes
      ensures Valid() && contents == old(contents)[..k] + old(contents)[k + 1..]
      ensures forall i :: 0 <= i < |nodes| ==> nodes[i] in old(nodes)
    {
      var temp := userPhrase;
      ghost var i := 0;
      while temp.next != phrase
        modifies {}
        invariant 0 <= i <= k && temp == nodes[i]
        decreases k - i
      {
        AtNode(i);
        temp, i := temp.next, i + 1;
      }
      AtNode(i);
      AtNode(k + 1);
      Unlink(temp, phrase, k);
    }

    method Unlink(temp: PyUsrPhrase, phrase: PyUsrPhrase, ghost k: nat)
      requires Valid() && k < |contents| && temp == nodes[k] && phrase == nodes[k + 1]
      modifies this, nodes
      ensures Valid() && contents == old(contents)[..k] + old(contents)[k + 1..]
      ensures forall i :: 0 <= i < |nodes| ==> nodes[i] in old(nodes)
    {
      hide Distinct;
      ghost var before, held := nodes, contents;
      AtNode(k + 1);
      OthersDiffer(nodes, k);
      CutDistinct(nodes, k + 1);
      CutOut(nodes, k + 1);
      CutOut(contents, k);
      temp.next := phrase.next;
      iUserPhrase := iUserPhrase - 1;
      nodes := nodes[..k + 1] + nodes[k + 2..];
      contents := contents[..k] + contents[k + 1..];
      forall i | 0 <= i < |nodes|
        ensures nodes[i].next == Node(i + 1)
      {
        if i < k {
          assert nodes[i].next == old(before[i].next);
        } else if k < i {
          assert nodes[i].next == old(before[i + 1].next);
        }
      }
    }

    method FindSystem(system: array<Phrase>, strMap: string, text: string) returns (k: nat)
      ensures k == IndexFrom(system[..], strMap, text, 0)
    {
      k := 0;
      while k < system.Length
        invariant 0 <= k <= system.Length
        invariant IndexFrom(system[..], strMap, text, 0) == IndexFrom(system[..], strMap, text, k)
      {
        if strMap == system[k].strMap && text == system[k].text { return; }
        k := k + 1;
      }
    }

    /** PYAddUserPhrase below the first character.  The system phrases of the character are
        an array whose hit counts and stamps are changed in place. */
    method AddUserPhrase(cfg: Config, sp: bool, system: array<Phrase>, iCounter: nat, strMap: string, text: string,
        incHit: bool)
        returns (isNew: bool, counter: nat)
      requires Valid() && CodeString(strMap) && AllCodes(contents)
      modifies this, nodes, system
      ensures Valid()
      ensures Added(Shelf(contents, system[..], counter), isNew)
        == AddTo(cfg, sp, Shelf(old(contents), old(system[..]), iCounter), strMap, text, incHit)
      ensures forall i :: 0 <= i < |nodes| ==> nodes[i] in old(nodes) || fresh(nodes[i])
    {
      hide CodeString, PlaceFrom;
      counter := iCounter;
      if text == "" { return false, counter; }
      var found, node;
      ghost var u;
      found, node, u := Find(strMap, text);
      if found {
        if incHit {
          Touch(node, u, counter);
          counter := Tick(counter);
        }
        return false, counter;
      }
      var k := FindSystem(system, strMap, text);
      if k < system.Length {
        if incHit {
          system[k] := Touched(system[k], counter);
          counter := Tick(counter);
        }
        return false, counter;
      }
      Insert(cfg, sp, Phrase(text, strMap, 1, Tick(counter)));
      isNew, counter := true, Tick(counter);
    }
  }

  lemma CodesAreComparable(cfg: Config, sp: bool, a: string, b: string)
    requires CodeString(a) && CodeString(b)
    ensures Comparable(cfg, a, b, sp) && '\0' !in a && '\0' !in b
  {
    hide Comparable;
    ComparableExactly(cfg, a, b, sp);
  }
}
