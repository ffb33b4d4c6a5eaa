/**
 * Launch geometry of the blur kernel in `process_image` (batch_blur.py) and
 * the launch itself.
 *
 * The device runs one work-item per thread of a grid of 16 x 16 blocks; a
 * thread's position is cuda.grid(2), its block index times the block size
 * plus its index inside the block, per axis. Work-items share no state, each
 * writes at most its own output cell and only reads the input, so the launch
 * is modelled as a sequential loop over every position the grid produces.
 */
module Launch {
  import opened GaussianBlur

  /** Threads per block along each axis (threads_per_block = (16, 16)). */
  const ThreadsPerBlock: nat := 16

  /**
   * Number of blocks along an axis of length dim: the ceiling of dim / 16,
   * written as (dim + 16 - 1) // 16.
   */
  function BlocksPerGrid(dim: nat): (blocks: nat)
    ensures blocks * ThreadsPerBlock >= dim
    ensures (blocks - 1) * ThreadsPerBlock < dim
    ensures blocks * ThreadsPerBlock - dim < ThreadsPerBlock
  {
    (dim + ThreadsPerBlock - 1) / ThreadsPerBlock
  }

  /** The block shape and the grid shape of one launch. */
  datatype Geometry = Geometry(blocksX: nat, blocksY: nat)

  /** The launch geometry process_image computes for an image of width x height. */
  function GeometryFor(width: nat, height: nat): (g: Geometry)
    ensures g.blocksX * ThreadsPerBlock >= width && (g.blocksX - 1) * ThreadsPerBlock < width
    ensures g.blocksY * ThreadsPerBlock >= height && (g.blocksY - 1) * ThreadsPerBlock < height
  {
    Geometry(BlocksPerGrid(width), BlocksPerGrid(height))
  }

  /** One thread of a launch: its block index and its index inside the block, per axis. */
  datatype Thread = Thread(blockX: nat, blockY: nat, threadX: nat, threadY: nat)

  /** Whether t is one of the threads launched with geometry g. */
  predicate InLaunch(g: Geometry, t: Thread) {
    t.blockX < g.blocksX && t.blockY < g.blocksY && t.threadX < ThreadsPerBlock && t.threadY < ThreadsPerBlock
  }

  /** cuda.grid(2): the absolute (x, y) position of a thread. */
  function GridPosition(t: Thread): (pos: (nat, nat))
    ensures t.threadX < ThreadsPerBlock ==> pos.0 / ThreadsPerBlock == t.blockX && pos.0 % ThreadsPerBlock == t.threadX
    ensures t.threadY < ThreadsPerBlock ==> pos.1 / ThreadsPerBlock == t.blockY && pos.1 % ThreadsPerBlock == t.threadY
  {
    (t.blockX * ThreadsPerBlock + t.threadX, t.blockY * ThreadsPerBlock + t.threadY)
  }

  /** The launch for the 17 x 1 image: two blocks across, one down. */
  lemma GeometryOf17By1()
    ensures GeometryFor(17, 1) == Geometry(2, 1)
  {
  }

  /**
   * Each pixel of a width x height image is the position of exactly one
   * thread of its launch, and no two threads share a position.
   */
  lemma EveryPixelHasOneThread(width: nat, height: nat, x: nat, y: nat)
    requires x < width && y < height
    ensures var t := Thread(x / ThreadsPerBlock, y / ThreadsPerBlock, x % ThreadsPerBlock, y % ThreadsPerBlock);
      InLaunch(GeometryFor(width, height), t) && GridPosition(t) == (x, y)
    ensures forall t :: InLaunch(GeometryFor(width, height), t) && GridPosition(t) == (x, y) ==>
      t == Thread(x / ThreadsPerBlock, y / ThreadsPerBlock, x % ThreadsPerBlock, y % ThreadsPerBlock)
  {
    forall t | InLaunch(GeometryFor(width, height), t) && GridPosition(t) == (x, y)
      ensures t == Thread(x / ThreadsPerBlock, y / ThreadsPerBlock, x % ThreadsPerBlock, y % ThreadsPerBlock)
    {
      DivModUnique(x, t.blockX, t.threadX);
      DivModUnique(y, t.blockY, t.threadY);
    }
  }

  /** b * 16 + r with r < 16 determines b and r. */
  lemma DivModUnique(n: nat, b: nat, r: nat)
    requires r < ThreadsPerBlock && n == b * ThreadsPerBlock + r
    ensures b == n / ThreadsPerBlock && r == n % ThreadsPerBlock
  {
  }

  /**
   * The positions of the launched threads are exactly the rectangle
   * [0, blocksX * 16) x [0, blocksY * 16): the sequential launch below visits
   * each of them once.
   */
  lemma LaunchPositions(g: Geometry, x: nat, y: nat)
    ensures (x < g.blocksX * ThreadsPerBlock && y < g.blocksY * ThreadsPerBlock) <==>
      (exists t :: InLaunch(g, t) && GridPosition(t) == (x, y))
  {
    if x < g.blocksX * ThreadsPerBlock && y < g.blocksY * ThreadsPerBlock {
      var t := Thread(x / ThreadsPerBlock, y / ThreadsPerBlock, x % ThreadsPerBlock, y % ThreadsPerBlock);
      assert InLaunch(g, t) && GridPosition(t) == (x, y);
    }
  }

  /**
   * The kernel launch gaussian_blur_kernel[grid, block](input, output, width,
   * height), run as a loop over every thread position of the grid: afterwards
   * every output cell holds the blurred value of its pixel.
   */
  method LaunchBlur(input: array2<Byte>, output: array2<real>, width: nat, height: nat)
    requires input.Length0 == height && input.Length1 == width
    requires output.Length0 == height && output.Length1 == width
    modifies output
    ensures forall y, x :: 0 <= y < height && 0 <= x < width ==>
      output[y, x] == Numerator(input, x, y) as real / KernelScale as real
  {
    var geometry := GeometryFor(width, height);
    for gy := 0 to geometry.blocksY * ThreadsPerBlock
      invariant forall y, x :: 0 <= y < gy && y < height && 0 <= x < width ==>
        output[y, x] == Numerator(input, x, y) as real / KernelScale as real
    {
      for gx := 0 to geometry.blocksX * ThreadsPerBlock
        invariant forall y, x :: 0 <= y < gy && y < height && 0 <= x < width ==>
          output[y, x] == Numerator(input, x, y) as real / KernelScale as real
        invariant gy < height ==> forall x :: 0 <= x < gx && x < width ==>
          output[gy, x] == Numerator(input, x, gy) as real / KernelScale as real
      {
        GaussianBlurKernel(input, output, width, height, gx, gy);
      }
    }
  }
}
