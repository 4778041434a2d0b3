/**
 * Classification of the `cpu` programmer parameter into the two Loongson3
 * families, and the choice of the controller's physical base address.
 */
module CpuModel {
  import opened Wrappers
  import opened Registers

  /** The models the driver recognises as 64C. */
  const Loongson64C: set<string> := {"3b1500", "3a2000", "3b2000", "3a3000", "3b3000"}
  /** The models the driver recognises as 64G. */
  const Loongson64G: set<string> := {"3a4000", "3b4000"}

  /** `cpu_is_loongson64c`: 1 exactly for the 64C models, 0 for every other string. */
  function CpuIsLoongson64C(cpu: string): (r: int)
    ensures r == 0 || r == 1
    ensures r == 1 <==> cpu in Loongson64C
  {
    if cpu == "3b1500" then 1
    else if cpu == "3a2000" then 1
    else if cpu == "3b2000" then 1
    else if cpu == "3a3000" then 1
    else if cpu == "3b3000" then 1
    else 0
  }

  /** `cpu_is_loongson64g`: 1 exactly for the 64G models, 0 for every other string. */
  function CpuIsLoongson64G(cpu: string): (r: int)
    ensures r == 0 || r == 1
    ensures r == 1 <==> cpu in Loongson64G
  {
    if cpu == "3a4000" then 1
    else if cpu == "3b4000" then 1
    else 0
  }

  /** No model belongs to both families, so at most one classifier answers 1. */
  lemma FamiliesDisjoint(cpu: string)
    ensures Loongson64C !! Loongson64G
    ensures CpuIsLoongson64C(cpu) + CpuIsLoongson64G(cpu) <= 1
  {
  }

  /**
   * The selector branch of `loongson3_spi_init`: the 64C test is made first,
   * then the 64G test; any other model is rejected (None).
   */
  function SelectBase(cpu: string): (r: Option<nat>)
    ensures r == Some(Loongson64CSpiBase) <==> cpu in Loongson64C
    ensures r == Some(Loongson64GSpiBase) <==> cpu in Loongson64G
    ensures r == None <==> cpu !in Loongson64C + Loongson64G
  {
    if CpuIsLoongson64C(cpu) == 1 then Some(Loongson64CSpiBase)
    else if CpuIsLoongson64G(cpu) == 1 then Some(Loongson64GSpiBase)
    else None
  }
}
