/**
 * A specification's node in the persisted hierarchy: the node's name, its path (written
 * from the parent suite's path and the node's name), its lifecycle, its id and the file it
 * was read from. Two nodes are equal exactly when they are of the same runtime type and
 * have the same id; the hash code depends on the id alone.
 *
 * Joining a suite path with a name, and taking the suite part of a path, are left
 * abstract: they are parameters of the operations that use them.
 */
module Persistence {
  import opened Wrappers

  class SpecNode {
    /** The node's runtime type: the name of the class it was created as. */
    const runtimeType: string
    var name: string
    var path: string
    var lifecycle: Option<string>
    var id: Option<string>
    var filename: string

    constructor (runtimeType: string, name: string, lifecycle: Option<string>, id: Option<string>, filename: string)
      ensures this.runtimeType == runtimeType && this.name == name && this.lifecycle == lifecycle
      ensures this.id == id && this.filename == filename && path == ""
    {
      this.runtimeType := runtimeType;
      this.name := name;
      path := "";
      this.lifecycle := lifecycle;
      this.id := id;
      this.filename := filename;
    }

    /** Sets the path to the parent's path joined with the node's name; nothing else changes. */
    method WritePath(parentPath: string, join: (string, string) -> string)
      modifies this`path
      ensures path == join(parentPath, name)
      ensures name == old(name) && lifecycle == old(lifecycle) && id == old(id) && filename == old(filename)
    {
      path := join(parentPath, name);
    }

    /** The path of the suite holding the node, computed from the node's path. */
    function SuitePath(suitePathOf: string -> string): string
      reads this
    {
      suitePathOf(path)
    }

    /** Equals against any object: false for null, true for the node itself, false for an
        object of another runtime type, otherwise whether the ids are equal. */
    function Equals(obj: object?): (r: bool)
      reads this, obj
      ensures obj == null ==> !r
      ensures obj == this ==> r
      ensures r <==> obj is SpecNode && (obj as SpecNode).runtimeType == runtimeType && (obj as SpecNode).id == id
    {
      if obj == null then false
      else if obj == this then true
      else if !(obj is SpecNode) then false
      else
        var other := obj as SpecNode;
        if other.runtimeType != runtimeType then false else other.id == id
    }

    /** The hash code: the id's hash, or 0 when there is no id. */
    function GetHashCode(hash: string -> int): (h: int)
      reads this
      ensures id.None? ==> h == 0
      ensures id.Some? ==> h == hash(id.value)
    {
      match id
      case None => 0
      case Some(s) => hash(s)
    }
  }

  /** Equality is symmetric. */
  lemma EqualsSymmetric(a: SpecNode, b: SpecNode)
    ensures a.Equals(b) == b.Equals(a)
  {
  }

  /** Equality is transitive. */
  lemma EqualsTransitive(a: SpecNode, b: SpecNode, c: SpecNode)
    requires a.Equals(b) && b.Equals(c)
    ensures a.Equals(c)
  {
  }

  /** Equal nodes have equal hash codes, whatever the string hash. */
  lemma EqualNodesHashAlike(a: SpecNode, b: SpecNode, hash: string -> int)
    requires a.Equals(b)
    ensures a.GetHashCode(hash) == b.GetHashCode(hash)
  {
  }

  /** Name, path, lifecycle and file name play no part in equality: nodes of one runtime type
      that differ in all of them are equal when their ids are. */
  method IdentityIsTheId() returns (a: SpecNode, b: SpecNode)
    ensures a != b && a.Equals(b) && b.Equals(a)
    ensures a.name != b.name && a.path != b.path && a.lifecycle != b.lifecycle && a.filename != b.filename
  {
    a := new SpecNode("SpecNode", "Adding numbers", Some("Acceptance"), Some("spec-1"), "adding.xml");
    b := new SpecNode("SpecNode", "Subtracting", Some("Regression"), Some("spec-1"), "subtracting.xml");
    a.WritePath("Math", (p, n) => p + "/" + n);
    b.WritePath("General", (p, n) => p + "/" + n);
    assert a.path[0] == 'M' && b.path[0] == 'G';
  }

  /** Writing the path changes what SuitePath reads but not the node's identity. */
  method WritePathKeepsIdentity(node: SpecNode, other: SpecNode, parentPath: string, join: (string, string) -> string, hash: string -> int)
    requires node != other
    modifies node
    ensures node.path == join(parentPath, node.name)
    ensures node.Equals(other) == old(node.Equals(other))
    ensures node.GetHashCode(hash) == old(node.GetHashCode(hash))
  {
    node.WritePath(parentPath, join);
  }

  /** SuitePath reads the node's path and nothing else: nodes with the same path have the
      same suite path, whatever else differs between them. */
  lemma SuitePathFollowsPath(a: SpecNode, b: SpecNode, suitePathOf: string -> string)
    requires a.path == b.path
    ensures a.SuitePath(suitePathOf) == b.SuitePath(suitePathOf)
  {
  }

  /** After WritePath the suite path is the suite part of the parent's path joined with the
      node's name. */
  method SuitePathAfterWrite(node: SpecNode, parentPath: string, join: (string, string) -> string, suitePathOf: string -> string)
    returns (suitePath: string)
    modifies node
    ensures suitePath == suitePathOf(join(parentPath, node.name))
    ensures node.name == old(node.name)
  {
    node.WritePath(parentPath, join);
    suitePath := node.SuitePath(suitePathOf);
  }
}
