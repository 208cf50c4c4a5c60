/** Validation packs, as their manifests declare them. */
module Packs {

  datatype Enforcement = Advisory | Blocking

  datatype Origin = Builtin | Target

  /** A command runs at the listed stages; with none listed, at every stage. */
  datatype Command = Command(stages: set<string>)

  datatype Pack = Pack(
    origin: Origin, status: string, role: string, runWhen: string, enforcement: Enforcement,
    stages: set<string>, globs: seq<string>, dependsOn: set<string>, takesOver: seq<string>,
    packetContract: bool, commands: seq<Command>)

  type PackSet = map<string, Pack>

  predicate AtLeastAsStrong(a: Enforcement, b: Enforcement) {
    a.Blocking? || b.Advisory?
  }
}
