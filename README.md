# N_bodies_drift in Dafny

A model of the simulation core of N_bodies_drift, a brute-force Newtonian
n-body simulator, together with the row layout of its CSV files. All
arithmetic is on Dafny's `real`.

- `vectors.dfy`, module `Vectors`: the n-dimensional `Vector` (coordinate
  list, dimension, cached module), componentwise `+` and `-`, scaling, exact
  equality and normalisation, with the module's accumulation loop as a method.
- `bodies.dfy`, module `Bodies`: the value `BodyState` and the class `Body`
  whose `MoveByForce` does one semi-implicit Euler step: the speed first, then
  the position with the new speed.
- `universe.dfy`, module `Universes`: the pair force with its `G / r ** 2 <
  epsilon` cutoff, the net force on a body with the first body at the same
  position excluded, and one tick (`update`): every force from the pre-tick
  bodies, then every body moved by its own force. These are specification
  functions over lists of `BodyState`; class `Universe` owns distinct `Body`
  objects and its methods (`CalcResultForceOn`, `Update` and the two loops
  of `Update`) are proved against those functions.
- `ndbio.dfy`, module `NdbIo`: reading and writing body rows and the header
  `[dt, G, epsilon, N]`, on rows of already-parsed real cells.

Python's `math.sqrt` is the parameter `sqrt: real -> real`; facts about
lengths require `IsSqrt(sqrt)`, which says that `sqrt` returns the
non-negative square root. Most length facts are stated through the squared
module `SumSq`, which needs no root. A Python `ZeroDivisionError` is the
outcome `ZeroDivision` (or `false` from a method), and the objects are left as
the exception leaves them. An `IndexError` from reading a row is `None`.

The code behaves as follows in four places where a reader might expect otherwise; the model follows the code:

- the code excludes "self" from the net force by position, not by index;
- the row reader does not check the number of cells;
- the code accepts a zero mass: `move_by_force` then divides by zero;
- the code accepts an empty body list, and only `N` fails on it.

On the first point the model proves that the position rule is sound, so it
cannot silently skip the wrong body. When positions are pairwise distinct it
skips exactly the body itself (`Universes.ResultForceOnDistinct`). When
another body shares the position, the force divides by zero
(`Universes.ResultForceOnFailsIff`).

## Model

| member | source | states |
|---|---|---|
| Vectors.ComputeModule | NDB_python/ndb.py:22-26 | the accumulation loop returns the root of the sum of squared coordinates, the module of the vector |
| Vectors.ModuleSquared | NDB_python/ndb.py:19-26 | with a true square root the cached module is non-negative, its square is the sum of squared coordinates, and it is zero exactly for the all-zero vector |
| Vectors.Vector.Add | NDB_python/ndb.py:58-77 | needs `other` at least as long as `self`; the sum has self's dimension and coordinate i is a[i] + b[i] |
| Vectors.Vector.Sub | NDB_python/ndb.py:79-98 | needs `other` at least as long as `self`; the difference has self's dimension and coordinate i is a[i] - b[i] |
| Vectors.AddSubInverse | NDB_python/ndb.py:58-98 | for equal dimensions, (v + w) - w == v |
| Vectors.SubAddInverse | NDB_python/ndb.py:58-98 | for equal dimensions, (v - w) + w == v |
| Vectors.SubSwap | NDB_python/ndb.py:79-98 | a - b is (b - a) scaled by -1 |
| Vectors.Vector.Equals | NDB_python/ndb.py:100-112 | true exactly when the dimensions agree and every coordinate is equal, i.e. when the vectors are equal |
| Vectors.Vector.Scale | NDB_python/ndb.py:126-136 | self's dimension, coordinate i is a[i] * k |
| Vectors.SquaredModuleScale | NDB_python/ndb.py:126-136 | scaling by k multiplies the squared module by k ** 2 |
| Vectors.ScaleScale | NDB_python/ndb.py:126-136 | scaling by j then by k is scaling by j * k |
| Vectors.Vector.Normalize | NDB_python/ndb.py:138-148 | keeps the dimension; a vector of module zero is returned unchanged |
| Vectors.NormalizeIsUnit | NDB_python/ndb.py:138-148 | a vector with a nonzero squared module normalises to a vector of squared module 1 and module 1 that is the vector scaled by a positive factor, so it keeps its direction |
| Vectors.NormalizeZero | NDB_python/ndb.py:145-148 | the all-zero vector normalises to itself |
| Vectors.Zero | NDB_python/ndb.py:322 | the zero vector of dimension n |
| Vectors.TestExpectations | NDB_python/tests.py:12-51 | (1,2)+(1,0) = (2,2), (1,2)-(1,0) = (0,2) and (1,1)*10 = (10,10) |
| Bodies.Moved | NDB_python/ndb.py:216-220 | one step keeps the mass and the dimensions of position and speed |
| Bodies.MovedCoordinates | NDB_python/ndb.py:216-220 | the new speed is v + f * dt / m, and the new position is x + v * dt + f * (dt / m) * dt, so it uses the updated speed |
| Bodies.MovedIsReversible | NDB_python/ndb.py:216-220 | for one common dimension, undoing the position step with the new speed and then the speed step gives back the body |
| Bodies.MovedWithoutForce | NDB_python/ndb.py:216-220 | with a zero force the speed is kept and the position moves by speed * dt |
| Bodies.Body.constructor | NDB_python/ndb.py:153-164 | the new body holds the given position, speed and mass |
| Bodies.Body.MoveByForce | NDB_python/ndb.py:208-220 | fails exactly for mass zero and then changes nothing; otherwise speed' = speed + force * (dt / mass), then position' = position + speed' * dt, mass unchanged |
| Universes.Magnitude | NDB_python/ndb.py:356 | the size of the force, the scaled term times both masses, is zero exactly when the scaled term or one of the masses is zero |
| Universes.ForceBetween | NDB_python/ndb.py:338-359 | a defined force has the dimension of the other body's position |
| Universes.ForceBetweenDefinedIff | NDB_python/ndb.py:350-353 | the force divides by zero exactly when the two positions are equal |
| Universes.ForceBetweenCutoff | NDB_python/ndb.py:353-356 | when G / r ** 2 < epsilon the force is the zero vector of the common dimension |
| Universes.ForceBetweenAboveCutoff | NDB_python/ndb.py:353-359 | otherwise it is normalise(b - a) scaled by (G / r ** 2) * ma * mb |
| Universes.ForceBetweenLaw | NDB_python/ndb.py:350-359 | above the cutoff the force is (b - a) * (k / abs(b - a)) for k = (G / r ** 2) * ma * mb; its squared length is k ** 2; the factor is non-negative when G and ma * mb are, so it points from a toward b |
| Universes.ForceBetweenAntisymmetric | NDB_python/ndb.py:350-359 | swapping the bodies negates a defined force and keeps an undefined one undefined |
| Universes.ForceTestExpectations | NDB_python/tests.py:62-72 | for the two test bodies with G = 0.1 and the default epsilon the force is (3,2) scaled by k / sqrt(13), and the reverse order gives its negation |
| Universes.FirstAt | NDB_python/ndb.py:326-329 | the index of the first body at the position: no earlier body is there, and the body at that index is |
| Universes.RemoveFirst | NDB_python/ndb.py:325-329 | dropping the first body at a position removes exactly one body when one is there, and leaves the list unchanged when none is |
| Universes.RemoveFirstAt | NDB_python/ndb.py:325-329 | removing drops exactly the body at the first matching index and keeps the order of the rest; with no match the list is unchanged |
| Universes.RemoveFirstOfDistinct | NDB_python/ndb.py:325-329 | with pairwise distinct positions the body removed for s[i] is s[i] |
| Universes.RemoveFirstSharedIff | NDB_python/ndb.py:325-329 | after the first body at s[i]'s position is dropped, a body at that position remains exactly when a body other than s[i] shares it |
| Universes.WithoutFirstAt | NDB_python/ndb.py:325-329 | the scanning loop returns the list without its first body at the position |
| Universes.SumForces | NDB_python/ndb.py:322-336 | the in-order sum has the dimension of the zero vector it starts from |
| Universes.SumForcesFailsIff | NDB_python/ndb.py:332-333 | the sum divides by zero exactly when one of the other bodies is at the body's position |
| Universes.SumForcesAborts | NDB_python/ndb.py:332-333 | a division by zero in the first i terms aborts the whole sum |
| Universes.AddForces | NDB_python/ndb.py:322-336 | the accumulation loop returns the in-order sum, or the division by zero |
| Universes.ResultForceOn | NDB_python/ndb.py:311-336 | the net force has dimension N, the dimension of the first body |
| Universes.ResultForceOnDistinct | NDB_python/ndb.py:322-336 | with pairwise distinct positions the net force on s[i] is the in-order sum over every other body |
| Universes.ResultForceOnFailsIff | NDB_python/ndb.py:322-336 | the net force on s[i] divides by zero exactly when another body shares its position |
| Universes.ResultForceTestExpectations | NDB_python/tests.py:75-83 | for the three test bodies the force on the third is defined and is the sum of the forces due to the first two |
| Universes.ForcesOn | NDB_python/ndb.py:303-305 | all forces are defined exactly when each body's net force is; then force i is the net force on body i from the same list |
| Universes.FirstMassless | NDB_python/ndb.py:308-309 | the index of the first body of mass zero, whose move divides by zero |
| Universes.Applied | NDB_python/ndb.py:307-309 | moving the bodies keeps their count, masses and dimensions |
| Universes.Updated | NDB_python/ndb.py:298-309 | a tick keeps the body count, every mass and every dimension |
| Universes.UpdateSucceedsIff | NDB_python/ndb.py:298-309 | a tick completes exactly when the positions are pairwise distinct and no mass is zero |
| Universes.UpdatedOnSuccess | NDB_python/ndb.py:298-309 | after a completed tick body i is body i of the pre-tick list moved by its net force in that list; with distinct positions that force sums over every other pre-tick body |
| Universes.UpdatedOnForceFailure | NDB_python/ndb.py:303-305 | when any net force divides by zero, no body moves |
| Universes.UpdatedOnMassless | NDB_python/ndb.py:307-309 | a body of mass zero and every body after it keep their state |
| Universes.SharedPositionBlocksUpdate | NDB_python/ndb.py:298-305 | two entries at one position, such as one Body object listed twice, make the tick divide by zero while computing the forces, so no body moves |
| Universes.Universe.constructor | NDB_python/ndb.py:225-238 | the universe owns fresh, distinct copies of the given bodies, and holds dt, G and epsilon |
| Universes.Universe.N | NDB_python/ndb.py:250-258 | for a non-empty universe of one dimension, every position and speed has dimension N |
| Universes.Universe.CalcResultForceOn | NDB_python/ndb.py:311-336 | returns the net force on the body computed from the current bodies, and changes nothing |
| Universes.Universe.CalcForces | NDB_python/ndb.py:302-305 | the first loop of a tick returns every body's net force from the unchanged current bodies, or the division by zero |
| Universes.Universe.MoveBodies | NDB_python/ndb.py:307-309 | the second loop moves body i by force i, in order, until a massless body; its result says whether none was massless |
| Universes.Universe.Update | NDB_python/ndb.py:298-309 | the new bodies are Updated of the old ones, and the result says whether the tick completed |
| NdbIo.Trunc | NDB_python/ndbio.py:86 | int() truncates toward zero |
| NdbIo.Cell | NDB_python/ndbio.py:21 | Python's row[i]: defined exactly for -len(row) <= i < len(row), counting from the end for a negative index |
| NdbIo.ReadVector | NDB_python/ndbio.py:8-22 | for a non-negative offset, reading succeeds exactly when n <= 0 or offset + n <= the row length; the vector has dimension max(n, 0) and coordinate i is row[offset + i] |
| NdbIo.ReadBody | NDB_python/ndbio.py:27-45 | for every integer n a row reads exactly when it has at least one cell and at least 2n cells; with m = max(n, 0) the position is row[..m], the speed row[m..2m] and the mass the last cell, so a negative n gives two empty vectors |
| NdbIo.ReadBodyIgnoresExtraCells | NDB_python/ndbio.py:40-42 | cells between index 2n and the last one do not change the body read |
| NdbIo.ReadBodyWithoutMassCell | NDB_python/ndbio.py:40-42 | a row of exactly 2n cells is read, with the last speed coordinate taken as the mass |
| NdbIo.WriteBody | NDB_python/ndbio.py:47-60 | the row is the position coordinates, then the speed coordinates, then the mass |
| NdbIo.BodyRoundTrip | NDB_python/ndbio.py:40-42 | a body whose vectors have dimension n is written as 2n + 1 cells and read back as the same body |
| NdbIo.RowRoundTrip | NDB_python/ndbio.py:56-59 | a row of 2n + 1 cells reads as a body whose row is the original row |
| NdbIo.ReadBodies | NDB_python/ndbio.py:89-91 | one body per row, in row order; it fails exactly when some row cannot be read |
| NdbIo.WriteHeader | NDB_python/ndbio.py:115 | the header row has four cells, and int() of the last one gives back the dimension |
| NdbIo.WriteUniverse | NDB_python/ndbio.py:99-122 | it fails exactly for a universe without bodies; otherwise row 0 is the header [dt, G, epsilon, N] with N the first body's dimension, and row i + 1 is the row of body i |
| NdbIo.ReadUniverse | NDB_python/ndbio.py:65-97 | reading succeeds exactly when there is a header of at least four cells and every later row reads as a body of dimension int(header[3]); dt, G and epsilon are header cells 0, 1 and 2, and body i is read from row i + 1 |
| NdbIo.HeaderRoundTrip | NDB_python/ndbio.py:83-86 | the header written from dt, G, epsilon and N has four cells, and reading it gives the same four values |
| NdbIo.UniverseRoundTrip | NDB_python/ndbio.py:97 | a non-empty universe of one dimension reads back with the same dt, G, epsilon and bodies, in the same order |

## Left out

- `math.sqrt` is not modelled: it is the parameter `sqrt`, and the lemmas that need a true square root require `IsSqrt(sqrt)`.
- IEEE floating point is not modelled (rounding, overflow, NaN and infinities): all values are reals, and exact equalities such as `Module == 1` hold for reals only.
- File handling is left out: `open`, `csv.reader`/`csv.writer` and `float()`. Rows are sequences of already-parsed reals, and `WriteUniverse` and `ReadUniverse` stand for the two file functions.
- The `__str__` methods depend on object ids and string formatting, and are left out.
- NDB_python/graphics.py and NDB_python/tests.py are not part of this model; the expected values of the tests are stated as lemmas.
- The read-only properties are modelled as follows: `Coords` is the datatype field `coords`; `N` and `Module` are the functions `Vectors.Vector.N` and `Vectors.Vector.Module` (the latter taking `sqrt`); `Position`, `Speed` and `Mass` are fields of `Body`; `Bodies`, `DT`, `G` and `Epsilon` are constant fields of `Universe`; the universe's `N` is the function `Universes.Universe.N`. The default arguments `dt = 1.0`, `G = 6.67e-11` and `epsilon = 1e-5` are left out; the test lemmas use `epsilon = 1e-5`.
- Deep copies at NDB_python/ndb.py:19, 162-163 and 235 are not modelled as such: vectors are immutable values, and `Universes.Universe.constructor` allocates fresh `Body` objects.
- Universes.ResultForceOn: requires every position and speed to have the first body's dimension. The source needs less (each other position no shorter than N and no longer than the body's own); a shorter position raises `IndexError`, and a longer one is truncated without notice.
- Universes.Universe.CalcResultForceOn: the same dimension requirement as `ResultForceOn`.
- Universes.Universe.Update: requires one common dimension (`WellFormed`), for the same reason. It also requires distinct `Body` objects (`Valid`), and `Universes.Universe.constructor` always allocates one object per entry. The deep copy at NDB_python/ndb.py:235 keeps shared references, so a list holding one `Body` twice gives a universe holding one copy twice. That aliasing is not modelled. It cannot change a tick: both entries have one position, so the force computation divides by zero before any body moves (`Universes.SharedPositionBlocksUpdate`).
- Vectors.Vector.Add, Vectors.Vector.Sub, Bodies.Body.MoveByForce, Universes.Universe.CalcForces and Universes.Universe.MoveBodies: an operand shorter than `self` makes the source raise `IndexError` (NDB_python/ndb.py:73, 94, 217 and 220). These members require the operand to be long enough, so that error is not modelled; `CalcForces` and `MoveBodies` have `Update`'s common-dimension requirement.
- Universes.Universe.N: requires a non-empty body list; the source raises `IndexError` there.
- Vectors.Vector.Normalize: with an arbitrary `sqrt` it only keeps the dimension and the zero case; the unit length and the direction (a positive multiple of the vector) are the lemma `NormalizeIsUnit`, which requires `IsSqrt`.
- NdbIo.ReadUniverse: a header cell that is not a finite number makes `int()` raise in Python; here every cell is a real.

