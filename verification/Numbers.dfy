/** Numbers shared by the modules of the project. */
module Numbers {
  function PowerOfTen(n: nat): (r: nat) {
    if n == 0 then 1 else 10 * PowerOfTen(n - 1)
  }
}
