/** Small arithmetic on natural numbers. */
module Numbers {
  function Min(a: nat, b: nat): nat { if a < b then a else b }

  function Max(a: nat, b: nat): nat { if a < b then b else a }

  // a - b, or 0
  function Sub(a: nat, b: nat): nat { if a < b then 0 else a - b }
}
