/**
 The resampling kernels a caller can choose and the effect technique each
 one selects.
 */
module Generators {

  import opened Wrappers

  /** The kernel selection (`gs::mipmapper::generator`). */
  datatype Generator = Point | Linear | Sharpen | Smoothen | Bicubic | Lanczos

  /** The technique used when no kernel matches. */
  const DefaultTechnique: string := "Draw"

  /** The names of the techniques one per kernel. */
  const KernelTechniques: set<string> :=
    {"Point", "Linear", "Sharpen", "Smoothen", "Bicubic", "Lanczos"}

  /** The technique the generator draws with for kernel `g`. */
  function TechniqueName(g: Generator): (name: string)
    ensures name in KernelTechniques
    ensures name != DefaultTechnique
  {
    match g
    case Point => "Point"
    case Linear => "Linear"
    case Sharpen => "Sharpen"
    case Smoothen => "Smoothen"
    case Bicubic => "Bicubic"
    case Lanczos => "Lanczos"
  }

  /** The kernel whose technique is called `name`, if any. */
  function GeneratorOf(name: string): (g: Option<Generator>)
    ensures g.Some? <==> name in KernelTechniques
  {
    if name == "Point" then Some(Point)
    else if name == "Linear" then Some(Linear)
    else if name == "Sharpen" then Some(Sharpen)
    else if name == "Smoothen" then Some(Smoothen)
    else if name == "Bicubic" then Some(Bicubic)
    else if name == "Lanczos" then Some(Lanczos)
    else None
  }

  /** Kernel-to-technique is a bijection onto the six technique names. */
  lemma TechniqueNameBijective()
    ensures forall g :: GeneratorOf(TechniqueName(g)) == Some(g)
    ensures forall name :: name in KernelTechniques ==> TechniqueName(GeneratorOf(name).value) == name
    ensures forall g, h :: TechniqueName(g) == TechniqueName(h) ==> g == h
  {
    forall g ensures GeneratorOf(TechniqueName(g)) == Some(g) {
      match g
      case Point =>
      case Linear =>
      case Sharpen =>
      case Smoothen =>
      case Bicubic =>
      case Lanczos =>
    }
  }
}
