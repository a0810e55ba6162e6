/**
 * Reading the word size out of a compiled .sla file (sla_util.cpp), over
 * the already parsed XML: the root's version attribute, the default space
 * named by `sleigh.spaces`, and the children of `sleigh.spaces`.
 */
module SlaUtil {
  import opened Wrappers
  import opened State

  const SLEIGH_VERSION := 3

  /**
   * A child of `sleigh.spaces`: its tag (`space`, or another element, or the
   * attribute node `<xmlattr>` itself) and its name and size attributes,
   * None when absent or not convertible.
   */
  datatype SpaceNode = SpaceNode(tag: string, name: Option<string>, size: Option<int>)

  /** The parsed .sla document, as far as the probe looks into it. */
  datatype SlaDocument = SlaDocument(version: Option<int>, defaultSpace: Option<string>, spaces: seq<SpaceNode>)

  /** `tree.get(path, default)`: a missing or unconvertible attribute reads as the default. */
  function VersionOf(doc: SlaDocument): int { doc.version.GetOr(0) }

  function DefaultSpaceOf(doc: SlaDocument): string { doc.defaultSpace.GetOr("") }

  /** A `space` child named like the default space with a nonzero size. */
  predicate Usable(node: SpaceNode, defaultSpace: string) {
    node.tag == "space" && node.name.GetOr("") == defaultSpace && node.size.GetOr(0) != 0
  }

  /** Child i is the first usable one: the search stops there. */
  predicate FirstUsableAt(spaces: seq<SpaceNode>, defaultSpace: string, i: int) {
    0 <= i < |spaces| && Usable(spaces[i], defaultSpace) &&
    forall j :: 0 <= j < i ==> !Usable(spaces[j], defaultSpace)
  }

  /** The file was read, has the expected version and names a default space. */
  predicate HeaderValid(sla: Option<SlaDocument>) {
    sla.Some? && VersionOf(sla.value) == SLEIGH_VERSION && DefaultSpaceOf(sla.value) != ""
  }

  /** The probe succeeds: a valid header and some usable space child. */
  predicate HasWordSize(sla: Option<SlaDocument>) {
    HeaderValid(sla) &&
    exists i :: 0 <= i < |sla.value.spaces| && Usable(sla.value.spaces[i], DefaultSpaceOf(sla.value))
  }

  /**
   * sla_get_word_size. `sla` is None when read_xml throws; `wordSize` is the
   * in/out parameter and `wordSizeAfter` its new value. The int size is
   * stored into an unsigned int, so a negative size wraps modulo 2^32.
   */
  method SlaGetWordSize(sla: Option<SlaDocument>, wordSize: U32) returns (result: int, wordSizeAfter: U32)
    ensures result == 0 || result == -1
    ensures result == 0 <==> HasWordSize(sla)
    ensures result == 0 ==> exists i :: FirstUsableAt(sla.value.spaces, DefaultSpaceOf(sla.value), i) &&
                                        wordSizeAfter == sla.value.spaces[i].size.value % 0x1_0000_0000
    ensures result != 0 ==> wordSizeAfter == wordSize
  {
    result, wordSizeAfter := -1, wordSize;
    if sla.None? {
      return;
    }
    var doc := sla.value;
    var sleighVersion := doc.version.GetOr(0);
    if sleighVersion != SLEIGH_VERSION {
      return;
    }
    var defaultSpace := doc.defaultSpace.GetOr("");
    if defaultSpace == "" {
      return;
    }
    var i := 0;
    while i < |doc.spaces|
      invariant 0 <= i <= |doc.spaces|
      invariant forall j :: 0 <= j < i ==> !Usable(doc.spaces[j], defaultSpace)
    {
      var v := doc.spaces[i];
      i := i + 1;
      if v.tag != "space" {
        continue;
      }
      var spaceName := v.name.GetOr("");
      if spaceName != defaultSpace {
        continue;
      }
      // found the default space
      var size := v.size.GetOr(0);
      if size == 0 {
        continue;
      }
      return 0, size % 0x1_0000_0000;
    }
  }

  /** At most one child is the first usable one, so the word size found is determined by the document. */
  lemma FirstUsableUnique(spaces: seq<SpaceNode>, defaultSpace: string, i: int, j: int)
    requires FirstUsableAt(spaces, defaultSpace, i) && FirstUsableAt(spaces, defaultSpace, j)
    ensures i == j
  {
  }
}
