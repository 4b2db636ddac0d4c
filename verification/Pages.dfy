/** The unit of memory that the tables map and the range allocator counts. */
module Pages {
  const PAGE := 0x1000
}
