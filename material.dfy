/** The outcome of a scattering event (src/material.rs). */
module Materials {
  import opened Vectors
  import opened Rays

  /** `Scatter`: the ray was absorbed, or it continues as `ray` with its
      light multiplied component-wise by `attenuation`. */
  datatype Scatter =
    | None
    | Scatter(attenuation: Colour, ray: Ray)
}
