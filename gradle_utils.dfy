/**
 * The plugin's helpers over Gradle types: dropping leading directories from a
 * `RelativePath`, and marking a `Configuration` as declarable, consumable or
 * resolvable.
 */
module GradleUtils {

  /** Gradle's `RelativePath`: whether it names a file, and its segments. */
  datatype RelativePath = RelativePath(endsWithFile: bool, segments: seq<string>)

  /** `dropDirectories(count)`: the segments from index `count` on, flagged as a file path. */
  function DropDirectories(p: RelativePath, count: nat): (r: RelativePath)
    ensures r.endsWithFile
    ensures |r.segments| == if count <= |p.segments| then |p.segments| - count else 0
    ensures forall i :: 0 <= i < |r.segments| ==> r.segments[i] == p.segments[count + i]
  {
    RelativePath(true, if count <= |p.segments| then p.segments[count..] else [])
  }

  /** `dropDirectory()`. */
  function DropDirectory(p: RelativePath): (r: RelativePath)
    ensures r == DropDirectories(p, 1)
    ensures r == RelativePath(true, if p.segments == [] then [] else p.segments[1..])
  {
    DropDirectories(p, 1)
  }

  lemma DropNothing(p: RelativePath)
    ensures DropDirectories(p, 0).segments == p.segments
  {
  }

  /** Dropping `a` and then `b` directories drops `a + b`. */
  lemma DropTwice(p: RelativePath, a: nat, b: nat)
    ensures DropDirectories(DropDirectories(p, a), b) == DropDirectories(p, a + b)
  {
    var once, twice, both := DropDirectories(p, a), DropDirectories(DropDirectories(p, a), b), DropDirectories(p, a + b);
    assert |twice.segments| == |both.segments|;
    forall i | 0 <= i < |twice.segments|
      ensures twice.segments[i] == both.segments[i]
    {
      assert twice.segments[i] == once.segments[b + i];
    }
  }

  /** Dropping one directory removes the first segment and keeps the rest. */
  lemma DropDirectoryOfCons(head: string, rest: seq<string>, endsWithFile: bool)
    ensures DropDirectory(RelativePath(endsWithFile, [head] + rest)) == RelativePath(true, rest)
  {
    assert ([head] + rest)[1..] == rest;
  }

  /**
   * The role flags of a Gradle `Configuration`. `isCanBeDeclared` exists from
   * Gradle 8.2 on; `declaredSupported` says whether the running Gradle has it.
   */
  class Configuration {
    var canBeResolved: bool
    var canBeConsumed: bool
    var isCanBeDeclared: bool
    const declaredSupported: bool

    constructor (declaredSupported: bool, resolved: bool, consumed: bool, declared: bool)
      ensures this.declaredSupported == declaredSupported
      ensures canBeResolved == resolved && canBeConsumed == consumed && isCanBeDeclared == declared
    {
      this.declaredSupported := declaredSupported;
      canBeResolved, canBeConsumed, isCanBeDeclared := resolved, consumed, declared;
    }

    /** The `canBeDeclared` getter: false on a Gradle that lacks the flag. */
    function CanBeDeclared(): (b: bool)
      reads this
      ensures b ==> declaredSupported
    {
      if declaredSupported then isCanBeDeclared else false
    }

    /** The `canBeDeclared` setter: does nothing on a Gradle that lacks the flag. */
    method SetCanBeDeclared(value: bool)
      modifies this
      ensures canBeResolved == old(canBeResolved) && canBeConsumed == old(canBeConsumed)
      ensures isCanBeDeclared == if declaredSupported then value else old(isCanBeDeclared)
      ensures CanBeDeclared() == (declaredSupported && value)
    {
      if declaredSupported {
        isCanBeDeclared := value;
      }
    }

    /** `declarable()`: only for declaring dependencies. */
    method Declarable()
      modifies this
      ensures !canBeResolved && !canBeConsumed
      ensures isCanBeDeclared == if declaredSupported then true else old(isCanBeDeclared)
      ensures CanBeDeclared() == declaredSupported
    {
      canBeResolved := false;
      canBeConsumed := false;
      SetCanBeDeclared(true);
    }

    /** `consumable()`: only for other projects to consume. */
    method Consumable()
      modifies this
      ensures !canBeResolved && canBeConsumed
      ensures isCanBeDeclared == if declaredSupported then false else old(isCanBeDeclared)
      ensures !CanBeDeclared()
    {
      canBeResolved := false;
      canBeConsumed := true;
      SetCanBeDeclared(false);
    }

    /** `resolvable()`: only for resolving declared dependencies. */
    method Resolvable()
      modifies this
      ensures canBeResolved && !canBeConsumed
      ensures isCanBeDeclared == if declaredSupported then false else old(isCanBeDeclared)
      ensures !CanBeDeclared()
    {
      canBeResolved := true;
      canBeConsumed := false;
      SetCanBeDeclared(false);
    }
  }
}
