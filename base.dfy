/** Shared vocabulary: an optional value (JavaScript's null/undefined) and the
    three variants of the reconciler that the repository keeps side by side. */
module Base {

  /** A present value or nothing (`null` / `undefined` in the source). */
  datatype Option<+T> = None | Some(value: T)

  /** Which snapshot of the reconciler is being modelled.
      - Jsx: js/index.jsx, with function components, hooks, `commitDeletion`
        and an `updateDom` that re-adds every listener.
      - Ts: ts/index.ts, the same design with a different `updateDom` order and
        listener filter, a property-copying `createDom`, and no early return
        after a deletion in `commitWork`.
      - HostOnly: index.js and index.ts (the latter compiles to the former),
        which know only host elements and write into `fiber.parent.dom`. */
  datatype Variant = Jsx | Ts | HostOnly
}
